/** allocations_db.py: the ownership ledger with its four stored maps and two union caches,
    updated field by field, and proved to refine the transitions of the abstract ledger. */
module AllocationsDB {
  import opened Wrappers
  import opened SortedSets
  import opened Codec
  import opened SmtSelection
  import opened Pinning
  import opened Sizing
  import opened Ledger
  import opened Requests
  import opened Guarantees
  import opened Snapshots

  /** The CPUs of a NUMA node, none if it does not exist; `get_cpus_in_numa_node` intersects with these. */
  function NodeCpus(topology: map<nat, set<nat>>, node: nat): set<nat> {
    if node in topology then topology[node] else {}
  }

  class AllocationsDB {
    var allocations: map<string, string>
    var allocatedCpus: set<nat>
    var explicitAllocations: map<string, string>
    var explicitlyAllocatedCpus: set<nat>
    var preemptionPolicies: map<string, Policy>
    var allocationPools: map<string, Pool>

    /** `_snapshot`. */
    function Snap(): Snapshot
      reads this
    {
      Snapshot(allocations, explicitAllocations, preemptionPolicies, allocationPools)
    }

    ghost function Book(): Book
      reads this
    {
      Decode(Snap())
    }

    /** The stored maps are consistent and the caches are the unions they stand for. */
    ghost predicate Valid()
      reads this
    {
      Fields(Snap(), allocatedCpus, explicitlyAllocatedCpus)
    }

    constructor ()
      ensures Valid() && Book() == map[]
    {
      allocations, explicitAllocations, preemptionPolicies, allocationPools := map[], map[], map[], map[];
      allocatedCpus, explicitlyAllocatedCpus := {}, {};
    }

    // ---------- Reading ----------

    function ServiceSet(service: string): (cpus: set<nat>)
      requires Valid()
      reads this
      ensures cpus == Owned(Book(), service)
    {
      if service in allocations then Cpus(allocations[service]) else {}
    }

    function ServiceExplicitSet(service: string): (cpus: set<nat>)
      requires Valid()
      reads this
      ensures cpus == OwnedExplicitly(Book(), service)
    {
      if service in explicitAllocations then Cpus(explicitAllocations[service]) else {}
    }

    function ServicePool(service: string): (pool: Pool)
      requires Valid()
      reads this
      ensures pool == PoolOf(Book(), service)
    {
      if service in allocationPools then allocationPools[service] else Isolated
    }

    /** `_effective_policy`; None where it raises. */
    function Policy(service: string, requested: Option<Policy>): (policy: Option<Policy>)
      requires Valid()
      reads this
      ensures policy == EffectivePolicy(Book(), service, requested)
    {
      var stored := if service in preemptionPolicies then preemptionPolicies[service] else Legacy;
      var policy := if requested.Some? then requested.value else stored;
      if stored == NonPreemptive && policy != stored then None else Some(policy)
    }

    /** `ensure_service_pool`; true where it raises. */
    predicate PoolConflict(service: string, pool: Pool)
      requires Valid()
      reads this
      ensures PoolConflict(service, pool) == InOtherPool(Book(), service, pool)
    {
      service in allocations && ServicePool(service) != pool
    }

    /** `_validate_reclamation`; true where it raises. */
    predicate ReclamationRefused(owner: string, cpus: set<nat>, policy: Policy, pool: Pool)
      requires Valid() && owner in allocations
      reads this
      ensures ReclamationRefused(owner, cpus, policy, pool) == !Reclaimable(Book()[owner], cpus, policy, pool)
    {
      || ServicePool(owner) != pool
      || policy == NonPreemptive
      || Policy(owner, None) == Some(NonPreemptive)
      || cpus * ServiceExplicitSet(owner) != {}
    }

    /** `get_available_cpus_for_service`. */
    function AvailableForService(service: string, cpus: set<nat>): (available: set<nat>)
      requires Valid()
      reads this
      ensures available == CountCandidates(Book(), service, cpus)
    {
      ClaimedSplit(Book(), service);
      cpus - (allocatedCpus - (ServiceSet(service) + ServiceExplicitSet(service)))
    }

    /** `get_available_cpus` and the `remaining_available_cpus` of `get_system_stats`. */
    function Available(cpus: set<nat>): (available: set<nat>)
      requires Valid()
      reads this
      ensures available == cpus - Claimed(Book())
    {
      cpus - allocatedCpus
    }

    /** `get_claimed_cpus` for one pool. */
    function ClaimedCpus(pool: Pool): (claimed: set<nat>)
      requires Valid()
      reads this
      ensures claimed == ClaimedIn(Book(), pool)
    {
      assert forall n :: n in allocations ==> ServicePool(n) == Book()[n].pool && Cpus(allocations[n]) == Book()[n].cpus;
      set n, c | n in allocations && ServicePool(n) == pool && c in Cpus(allocations[n]) :: c
    }

    /** `get_preemption_policy`. */
    function PreemptionPolicy(service: string): (policy: Option<Policy>)
      requires Valid()
      reads this
      ensures policy == PolicyReply(Book(), service)
    {
      if service !in allocations then None
      else Some(if service in preemptionPolicies then preemptionPolicies[service] else Legacy)
    }

    // ---------- Loading ----------

    /** `_load_snapshot`: the maps are taken over and both caches are rebuilt from the strings. */
    method LoadSnapshot(data: Snapshot) returns (r: Result<(), Error>)
      modifies this
      ensures r.Ok? <==> Loadable(data)
      ensures r.Ok? ==> Snap() == data
      ensures Consistent(data) ==> r.Ok? && Valid()
    {
      preemptionPolicies := data.preemptionPolicies;
      allocations, explicitAllocations := data.allocations, data.explicitAllocations;
      if !(preemptionPolicies.Keys <= allocations.Keys) {
        return Err(CorruptState);
      }
      allocationPools := data.allocationPools;
      if !(allocationPools.Keys <= allocations.Keys) {
        return Err(CorruptState);
      }
      var claimed := ParseAll(allocations);
      if claimed.None? {
        return Err(MalformedRanges);
      }
      allocatedCpus := claimed.value;
      var explicit := ParseAll(explicitAllocations);
      if explicit.None? {
        return Err(MalformedRanges);
      }
      explicitlyAllocatedCpus := explicit.value;
      UnionsOfStrings(data, claimed.value, explicit.value);
      r := Ok(());
    }

    // ---------- Single-owner updates ----------

    /** `_remove_service_allocation`. */
    method RemoveServiceAllocation(service: string) returns (removed: set<nat>)
      requires Valid()
      modifies this
      ensures Valid() && Book() == Release(old(Book()), service)
      ensures removed == Owned(old(Book()), service)
    {
      hide Cpus, Print, Fields, Decode, Owned, OwnedExplicitly, Release;
      ghost var before := Snap();
      DropKeepsFields(before, allocatedCpus, explicitlyAllocatedCpus, service);
      assert StoredClaims(before, service) == Owned(Decode(before), service) by {
        FieldsOwned(before, allocatedCpus, explicitlyAllocatedCpus, service);
      }
      if service !in allocations { RemoveAbsent(allocations, service); }
      if service !in explicitAllocations { RemoveAbsent(explicitAllocations, service); }
      removed := {};
      if service in allocations {
        removed := Cpus(allocations[service]);
        allocations := allocations - {service};
        allocatedCpus := allocatedCpus - removed;
      }
      if service in explicitAllocations {
        var oldExplicit := Cpus(explicitAllocations[service]);
        explicitAllocations := explicitAllocations - {service};
        explicitlyAllocatedCpus := explicitlyAllocatedCpus - oldExplicit;
      }
      preemptionPolicies := preemptionPolicies - {service};
      allocationPools := allocationPools - {service};
      assert allocations == before.allocations - {service} && explicitAllocations == before.explicitAllocations - {service};
      assert allocatedCpus == old(allocatedCpus) - StoredClaims(before, service);
      assert explicitlyAllocatedCpus == old(explicitlyAllocatedCpus) - StoredExplicit(before, service);
      assert Snap() == Dropped(before, service);
    }

    /** `_apply_allocation`: sets a claim without looking at what was there. */
    method ApplyAllocation(service: string, cpus: set<nat>, explicit: bool)
      modifies this
      ensures cpus == {} ==> unchanged(this)
      ensures preemptionPolicies == old(preemptionPolicies) && allocationPools == old(allocationPools)
      ensures cpus != {} ==> allocations == old(allocations)[service := Print(cpus)]
      ensures cpus != {} ==> explicitAllocations == if explicit then old(explicitAllocations)[service := Print(cpus)]
                                                    else old(explicitAllocations) - {service}
      ensures cpus != {} ==> allocatedCpus == old(allocatedCpus) + cpus
      ensures cpus != {} ==> explicitlyAllocatedCpus == old(explicitlyAllocatedCpus) + if explicit then cpus else {}
    {
      hide Print;
      if cpus == {} {
        return;
      }
      var text := Print(cpus);
      allocations := allocations[service := text];
      allocatedCpus := allocatedCpus + cpus;
      if explicit {
        explicitAllocations := explicitAllocations[service := text];
        explicitlyAllocatedCpus := explicitlyAllocatedCpus + cpus;
      } else if service in explicitAllocations {
        explicitAllocations := explicitAllocations - {service};
      }
    }

    /** `_subtract_cpus_from_service`, with its guard against foreign claims. */
    method SubtractCpusFromService(
      service: string, cpus: set<nat>, requester: Option<Requester>) returns (error: Option<Error>)
      requires Valid()
      modifies this
      ensures Valid()
      ensures error == SubtractGuard(old(Book()), service, cpus, requester)
      ensures Book() == if error.None? then Subtract(old(Book()), {service}, cpus) else old(Book())
    {
      ghost var book := Book();
      error := None;
      StoredIsOwned(Snap(), service);
      if service !in allocations || Cpus(allocations[service]) * cpus == {} {
        SubtractNothing(book, service, cpus);
        return;
      }
      if requester.Some? && requester.value.name != service {
        var r := requester.value;
        if PoolConflict(r.name, r.pool) {
          return Some(WrongPool);
        }
        var policy := Policy(r.name, r.policy);
        if policy.None? {
          return Some(ProtectedDowngrade);
        }
        if ReclamationRefused(service, cpus, policy.value, r.pool) {
          return Some(CannotReclaim);
        }
      }
      Take(service, cpus);
    }

    /** The field updates of `_subtract_cpus_from_service`. */
    method Take(service: string, cpus: set<nat>)
      requires Valid() && service in allocations
      modifies this
      ensures Valid() && Book() == Subtract(old(Book()), {service}, cpus)
    {
      hide Cpus, Fields, Decode, Print, Subtract;
      ghost var before := Snap();
      var current := Cpus(allocations[service]);
      var remaining := current - cpus;
      if remaining != {} {
        ShrinkKeepsFields(before, allocatedCpus, explicitlyAllocatedCpus, service, cpus);
      } else {
        VanishKeepsFields(before, allocatedCpus, explicitlyAllocatedCpus, service, cpus);
      }
      allocatedCpus := allocatedCpus - current * cpus;
      if service in explicitAllocations {
        var explicit := Cpus(explicitAllocations[service]);
        var explicitRemaining := explicit - cpus;
        explicitlyAllocatedCpus := explicitlyAllocatedCpus - explicit * cpus;
        if explicitRemaining != {} {
          explicitAllocations := explicitAllocations[service := Print(explicitRemaining)];
        } else {
          explicitAllocations := explicitAllocations - {service};
        }
      }
      ghost var marked := StoredExplicit(before, service) - cpus;
      assert explicitlyAllocatedCpus == old(explicitlyAllocatedCpus) - StoredExplicit(before, service) * cpus;
      assert explicitAllocations == if marked == {} then before.explicitAllocations - {service}
                                    else before.explicitAllocations[service := Print(marked)];
      if remaining != {} {
        allocations := allocations[service := Print(remaining)];
        assert Snap() == WithClaims(before, service, remaining, marked);
      } else {
        allocations := allocations - {service};
        preemptionPolicies := preemptionPolicies - {service};
        allocationPools := allocationPools - {service};
        assert Snap() == Dropped(before, service);
      }
    }

    /** `remove_allocation`; an error where the pool check raises. */
    method RemoveAllocation(service: string, pool: Pool) returns (r: Result<bool, Error>)
      requires Valid()
      modifies this
      ensures Valid()
      ensures r == if InOtherPool(old(Book()), service, pool) then Err(WrongPool) else Ok(service in old(Book()))
      ensures Book() == if r.Ok? then Release(old(Book()), service) else old(Book())
    {
      if PoolConflict(service, pool) {
        return Err(WrongPool);
      }
      StoredIsOwned(Snap(), service);
      if service in allocations || service in explicitAllocations {
        var removed := RemoveServiceAllocation(service);
        return Ok(true);
      }
      assert Release(Book(), service) == Book();
      r := Ok(false);
    }

    // ---------- Ordinary allocation ----------

    /** `allocate_cores`; None where it returns, the error where it raises. */
    method AllocateCores(
      service: string, text: string, requested: Option<Policy>, pool: Pool) returns (error: Option<Error>)
      requires Valid()
      modifies this
      ensures Valid()
      ensures error == AllocateCoresError(old(Book()), service, text, requested, pool)
      ensures Book() == if error.None? && text != "" then Replace(old(Book()), service, Cpus(text), requested, pool).value
                        else old(Book())
    {
      hide ParseCpuRanges, Print, Fields, Decode, Release, ClaimedByOthers;
      ghost var book := Book();
      if PoolConflict(service, pool) {
        return Some(WrongPool);
      }
      if text == "" {
        return None;
      }
      var policy := Policy(service, requested);
      if policy.None? {
        return Some(ProtectedDowngrade);
      }
      var parsed := ParseCpuRanges(text);
      if parsed.None? {
        return Some(MalformedRanges);
      }
      var cpus := parsed.value;
      if cpus == {} {
        return None;
      }
      assert allocatedCpus - ServiceSet(service) == ClaimedByOthers(book, service) by {
        OthersAreTheRest(Snap(), allocatedCpus, explicitlyAllocatedCpus, service);
      }
      var others := allocatedCpus - ServiceSet(service);
      if cpus * others != {} {
        return Some(AlreadyAllocated);
      }
      DifferenceFacts(cpus, others);
      Install(service, cpus, policy.value, pool);
      error := None;
    }

    /** The field updates of `allocate_cores`. */
    method Install(service: string, cpus: set<nat>, policy: Policy, pool: Pool)
      requires Valid() && cpus != {} && cpus !! ClaimedByOthers(Book(), service)
      modifies this
      ensures Valid() && Book() == CountGrant(old(Book()), service, cpus, policy, pool)
    {
      hide Print, Cpus, Fields, Decode, Release, ClaimedByOthers;
      ghost var book := Book();
      var removed := RemoveServiceAllocation(service);
      ghost var before := Snap();
      ReleaseThenGrant(book, service, cpus, policy, pool);
      NothingStored(before, allocatedCpus, explicitlyAllocatedCpus, service);
      GrowKeepsFields(before, allocatedCpus, explicitlyAllocatedCpus, service, cpus, {}, policy, pool);
      ApplyAllocation(service, cpus, false);
      preemptionPolicies := preemptionPolicies[service := policy];
      allocationPools := allocationPools[service := pool];
      assert Snap() == WithMetadata(WithClaims(before, service, cpus, {}), service, policy, pool);
    }

    /** `allocate_count`: the shared and the dedicated ranges. */
    method AllocateCount(
      service: string, count: int, eligibleText: string, requested: Option<Policy>, pool: Pool,
      recheck: Option<set<nat>>, siblings: Siblings) returns (r: Result<(string, string), Error>)
      requires Valid()
      modifies this
      ensures Valid()
      ensures var result := CountResult(old(Book()), service, count, eligibleText, requested, pool, recheck, siblings);
              && r == (match result case Ok(grant) => Ok((Print(grant.first), Print(grant.second))) case Err(e) => Err(e))
              && Book() == (match result case Ok(grant) => grant.book case Err(_) => old(Book()))
    {
      hide Fields, Decode, Print, Parses, Cpus, CountCandidates, CountChoice, CountGrant, InOtherPool, EffectivePolicy;
      ghost var book := Book();
      if PoolConflict(service, pool) {
        return Err(WrongPool);
      }
      var policy := Policy(service, requested);
      if policy.None? {
        return Err(ProtectedDowngrade);
      }
      if !Parses(eligibleText) {
        return Err(MalformedRanges);
      }
      var eligible := Cpus(eligibleText);
      var chosen := ChooseForCount(service, count, eligible, policy.value, recheck, siblings);
      if chosen.Err? {
        return Err(chosen.error);
      }
      var selected := chosen.value;
      var shared := AvailableForService(service, eligible) - selected;
      CommitSelection(service, selected, eligible, policy.value, requested, pool);
      r := Ok((Print(shared), Print(selected)));
    }

    /** `allocate_count` between the policy check and the grant. */
    method ChooseForCount(
      service: string, count: int, eligible: set<nat>, policy: Policy, recheck: Option<set<nat>>, siblings: Siblings)
      returns (r: Result<set<nat>, Error>)
      requires Valid()
      ensures r == CountChoice(Book(), service, count, eligible, policy, recheck, siblings)
      ensures r.Ok? ==> r.value != {} && r.value <= CountCandidates(Book(), service, eligible)
    {
      hide Fields, Decode, CountCandidates, CountSelection, CountSize;
      var candidates := AvailableForService(service, eligible);
      if !(ServiceSet(service) <= eligible) {
        return Err(ClaimsOutsidePool);
      }
      if count > |candidates| {
        return Err(InsufficientCpus);
      }
      var chosen := SelectForCount(Book(), service, ServiceSet(service), candidates, count, policy, siblings);
      if chosen.None? {
        return Err(NothingSelected);
      }
      var selected := chosen.value;
      if |selected| != CountSize(candidates, count) || !(selected <= candidates) {
        assert false;
        return Err(BadSelection);
      }
      if !ConfirmedOnline(selected, recheck) {
        return Err(OnlineError(recheck));
      }
      r := Ok(selected);
    }

    /** The call of `allocate_cores` in `allocate_count`, which can no longer raise. */
    method CommitSelection(
      service: string, selected: set<nat>, ghost eligible: set<nat>, policy: Policy, ghost requested: Option<Policy>,
      pool: Pool)
      requires Valid() && selected != {} && selected <= CountCandidates(Book(), service, eligible)
      requires !InOtherPool(Book(), service, pool) && EffectivePolicy(Book(), service, requested) == Some(policy)
      modifies this
      ensures Valid() && Book() == CountGrant(old(Book()), service, selected, policy, pool)
    {
      ReplaceSucceeds(Book(), service, selected, eligible, policy, requested, pool);
      CpusOfPrint(selected);
      RoundTrip(selected);
      hide Print, Fields, Decode, Cpus, ParseCpuRanges, Replace, ClaimedByOthers;
      var error := AllocateCores(service, Print(selected), Some(policy), pool);
    }

    // ---------- NUMA allocation ----------

    /** The loop of `_get_allocatable_numa_cpus` over the other owners. */
    method WithheldByOthers(service: string, policy: Policy, pool: Pool) returns (unavailable: set<nat>)
      requires Valid()
      ensures unavailable == Unavailable(Book(), service, policy, pool)
    {
      hide Cpus, Fields, WellFormed;
      unavailable := {};
      var todo := allocations.Keys;
      while todo != {}
        invariant todo <= allocations.Keys
        invariant unavailable == WithheldBy(Book(), allocations.Keys - todo, service, policy, pool)
        decreases todo
      {
        var owner :| owner in todo;
        if owner != service {
          if ServicePool(owner) != pool || policy == NonPreemptive || Policy(owner, None) == Some(NonPreemptive) {
            unavailable := unavailable + ServiceSet(owner);
          } else {
            unavailable := unavailable + ServiceExplicitSet(owner);
          }
        }
        WithheldGrows(Book(), allocations.Keys - todo, owner, service, policy, pool);
        assert allocations.Keys - (todo - {owner}) == allocations.Keys - todo + {owner};
        todo := todo - {owner};
      }
      WithheldByAll(Book(), allocations.Keys - todo, service, policy, pool);
    }

    /** The overlaps of `_apply_numa_explicit_allocation` and its first loop: may all be taken? */
    method Overlaps(service: string, newCores: set<nat>, policy: Policy, pool: Pool)
      returns (overlaps: map<string, set<nat>>, refused: bool)
      requires Valid()
      ensures refused == Refused(Book(), service, newCores, policy, pool)
      ensures overlaps.Keys == Book().Keys - {service}
      ensures forall n :: n in overlaps ==>
                overlaps[n] == Book()[n].cpus * newCores && (!refused ==> MayTake(Book()[n], newCores, policy, pool))
    {
      overlaps := map owner | owner in allocations && owner != service :: ServiceSet(owner) * newCores;
      OverlapsOf(Snap(), allocatedCpus, explicitlyAllocatedCpus, service, newCores, overlaps, policy, pool);
      hide Cpus, Fields, Decode, Reclaimable, MayTake;
      var todo := overlaps.Keys;
      refused := false;
      while todo != {} && !refused
        invariant todo <= overlaps.Keys
        invariant refused ==> exists n :: n in overlaps && !MayTake(Book()[n], newCores, policy, pool)
        invariant !refused ==> forall n :: n in overlaps && n !in todo ==> MayTake(Book()[n], newCores, policy, pool)
        decreases todo
      {
        var owner :| owner in todo;
        if overlaps[owner] != {} && ReclamationRefused(owner, overlaps[owner], policy, pool) {
          refused := true;
        }
        todo := todo - {owner};
      }
    }

    /** The second loop: subtract every overlap from its owner. The guard inside the
        subtraction is passed each time, so nothing raises halfway. */
    method TakeOverlaps(
      ghost book: Book, overlaps: map<string, set<nat>>, selected: set<nat>, service: string, policy: Policy,
      pool: Pool)
      requires Valid() && Book() == book && WellFormed(book) && service !in overlaps && overlaps.Keys <= book.Keys
      requires forall n :: n in overlaps ==> overlaps[n] == book[n].cpus * selected
      requires forall n :: n in overlaps ==> MayTake(book[n], selected, policy, pool)
      requires !InOtherPool(book, service, pool) && EffectivePolicy(book, service, Some(policy)) == Some(policy)
      modifies this
      ensures Valid() && Book() == Subtract(book, overlaps.Keys, selected)
    {
      hide Cpus, Fields, Decode, WellFormed, Reclaimable, Subtract, InOtherPool, EffectivePolicy, MayTake,
        SubtractGuard;
      var todo := overlaps.Keys;
      SubtractNobody(book, selected);
      assert overlaps.Keys - todo == {};
      while todo != {}
        invariant Valid() && todo <= overlaps.Keys
        invariant Book() == Subtract(book, overlaps.Keys - todo, selected)
        decreases todo
      {
        var owner :| owner in todo;
        ghost var done := overlaps.Keys - todo;
        OverlapStep(book, done, owner, selected, service, policy, pool);
        var error := SubtractCpusFromService(owner, overlaps[owner], Some(Requester(service, Some(policy), pool)));
        assert overlaps.Keys - (todo - {owner}) == done + {owner};
        todo := todo - {owner};
      }
      assert overlaps.Keys - todo == overlaps.Keys;
    }

    /** `_apply_numa_explicit_allocation`: validate everything, then release, steal and claim. */
    method ApplyNumaExplicitAllocation(
      service: string, topology: map<nat, set<nat>>, numaNode: nat, newCores: set<nat>, requested: Option<Policy>,
      pool: Pool, eligible: set<nat>, recheck: Option<set<nat>>) returns (error: Option<Error>)
      requires Valid()
      modifies this
      ensures Valid()
      ensures var node := NodeCpus(topology, numaNode);
              var result := ApplyNuma(old(Book()), service, node, newCores, eligible, requested, pool, recheck);
              && error == (match result case Ok(_) => None case Err(e) => Some(e))
              && Book() == (match result case Ok(book) => book case Err(_) => old(Book()))
    {
      hide Cpus, Fields, Decode, Reclaimable, Refused, MayTake, Subtract, NumaGrant, InOtherPool, EffectivePolicy,
        Owned, ConfirmedOnline, OnlineError;
      ghost var book := Book();
      var node := NodeCpus(topology, numaNode);
      if PoolConflict(service, pool) {
        return Some(WrongPool);
      }
      var policy := Policy(service, requested);
      if policy.None? {
        return Some(ProtectedDowngrade);
      }
      if !(newCores <= node * eligible) {
        return Some(OutsideNode);
      }
      if !(ServiceSet(service) <= eligible) {
        return Some(ClaimsOutsidePool);
      }
      var overlaps, refused := Overlaps(service, newCores, policy.value, pool);
      if refused {
        return Some(CannotReclaim);
      }
      if !ConfirmedOnline(newCores, recheck) {
        return Some(OnlineError(recheck));
      }
      MoveClaims(service, node, newCores, overlaps, policy.value, requested, pool);
      error := None;
    }

    /** The mutations of `_apply_numa_explicit_allocation`, none of which can raise any more. */
    method MoveClaims(
      service: string, node: set<nat>, newCores: set<nat>, overlaps: map<string, set<nat>>, policy: Policy,
      ghost requested: Option<Policy>, pool: Pool)
      requires Valid() && overlaps.Keys == Book().Keys - {service}
      requires forall n :: n in overlaps ==> overlaps[n] == Book()[n].cpus * newCores
      requires forall n :: n in overlaps ==> MayTake(Book()[n], newCores, policy, pool)
      requires !InOtherPool(Book(), service, pool) && EffectivePolicy(Book(), service, requested) == Some(policy)
      modifies this
      ensures Valid()
      ensures Book() == if (Owned(old(Book()), service) - node) + newCores == {} then Subtract(old(Book()), {service}, node)
                        else NumaGrant(old(Book()), service, node, newCores, policy, pool)
    {
      ghost var book := Book();
      assert WellFormed(book);
      hide Cpus, Fields, Decode, WellFormed, Subtract, NumaGrant, Owned, OwnedExplicitly, InOtherPool, EffectivePolicy,
        ClaimedByOthers, MayTake, SubtractGuard;
      var current := ServiceSet(service);
      var inNode := node * current;
      var remainingExplicit := ServiceExplicitSet(service) - inNode;
      NoRequesterNoGuard(book, service, inNode);
      var error := SubtractCpusFromService(service, inNode, None);
      OwnNodeReleased(book, service, node, policy, requested, pool);
      TakeOverlaps(Book(), overlaps, newCores, service, policy, pool);
      ClaimReady(book, service, node, newCores, policy, pool);
      var updated := (current - inNode) + newCores;
      if updated != {} {
        Claim(service, updated, remainingExplicit + newCores, policy, pool);
      }
    }

    /** The final claim of `_apply_numa_explicit_allocation`. */
    method Claim(service: string, updated: set<nat>, explicit: set<nat>, policy: Policy, pool: Pool)
      requires Valid() && updated != {} && explicit <= updated && updated !! ClaimedByOthers(Book(), service)
      requires Owned(Book(), service) <= updated && OwnedExplicitly(Book(), service) <= explicit
      modifies this
      ensures Valid() && Book() == old(Book())[service := Entry(updated, explicit, policy, pool)]
    {
      hide Cpus, Print, Fields, Decode, Owned, OwnedExplicitly, ClaimedByOthers;
      ghost var before := Snap();
      FieldsOwned(before, allocatedCpus, explicitlyAllocatedCpus, service);
      GrowKeepsFields(before, allocatedCpus, explicitlyAllocatedCpus, service, updated, explicit, policy, pool);
      if explicit == {} {
        RemoveAbsent(explicitAllocations, service);
      }
      allocations := allocations[service := Print(updated)];
      allocatedCpus := allocatedCpus + updated;
      if explicit != {} {
        explicitAllocations := explicitAllocations[service := Print(explicit)];
        explicitlyAllocatedCpus := explicitlyAllocatedCpus + explicit;
      }
      preemptionPolicies := preemptionPolicies[service := policy];
      allocationPools := allocationPools[service := pool];
      assert Snap() == WithMetadata(WithClaims(before, service, updated, explicit), service, policy, pool);
      assert explicitlyAllocatedCpus == old(explicitlyAllocatedCpus) + explicit;
    }

    /** `allocate_numa_cores`: the selected ranges, or the ranges others withhold. */
    method AllocateNumaCores(
      service: string, topology: map<nat, set<nat>>, numaNode: nat, count: int, requested: Option<Policy>, pool: Pool,
      eligible: set<nat>, recheck: Option<set<nat>>, siblings: Siblings) returns (r: Result<(string, string), Error>)
      requires Valid()
      modifies this
      ensures Valid()
      ensures var node := NodeCpus(topology, numaNode);
              var result := Numa(old(Book()), service, node, count, eligible, requested, pool, recheck, siblings);
              && r == (match result case Ok(grant) => Ok((Print(grant.first), Print(grant.second))) case Err(e) => Err(e))
              && Book() == (match result case Ok(grant) => grant.book case Err(_) => old(Book()))
    {
      hide Cpus, Fields, Decode, Print, Subtract, NumaGrant, NumaChoice, InOtherPool, EffectivePolicy, ConfirmedOnline;
      RoundTrip({});
      var node := NodeCpus(topology, numaNode);
      if PoolConflict(service, pool) {
        return Err(WrongPool);
      }
      if count == 0 {
        return Ok(("", ""));
      }
      if count == -1 {
        ReleaseInNode(service, node);
        return Ok(("", ""));
      }
      if count < -1 {
        return Err(InvalidCount);
      }
      var policy := Policy(service, requested);
      if policy.None? {
        return Err(ProtectedDowngrade);
      }
      r := GrantNuma(service, topology, numaNode, count, requested, policy.value, pool, eligible, recheck, siblings);
    }

    /** The allocation branch of `allocate_numa_cores`, its policy settled. */
    method GrantNuma(
      service: string, topology: map<nat, set<nat>>, numaNode: nat, count: nat, ghost requested: Option<Policy>,
      policy: Policy, pool: Pool, eligible: set<nat>, recheck: Option<set<nat>>, siblings: Siblings)
      returns (r: Result<(string, string), Error>)
      requires Valid() && count > 0
      requires !InOtherPool(Book(), service, pool) && EffectivePolicy(Book(), service, requested) == Some(policy)
      modifies this
      ensures Valid()
      ensures var node := NodeCpus(topology, numaNode);
              var result := Numa(old(Book()), service, node, count, eligible, requested, pool, recheck, siblings);
              && r == (match result case Ok(grant) => Ok((Print(grant.first), Print(grant.second))) case Err(e) => Err(e))
              && Book() == (match result case Ok(grant) => grant.book case Err(_) => old(Book()))
    {
      hide Cpus, Fields, Decode, WellFormed, Print, NumaGrant, NumaChoice, NumaCandidates, InOtherPool, EffectivePolicy,
        ApplyNuma, OnlineError, ConfirmedOnline, Owned, Unavailable;
      RoundTrip({});
      FieldsOwned(Snap(), allocatedCpus, explicitlyAllocatedCpus, service);
      ghost var book := Book();
      var node := NodeCpus(topology, numaNode);
      var chosen, rejected := ChooseForNuma(service, node, count, eligible, policy, pool, siblings);
      if chosen.Err? {
        return Err(chosen.error);
      }
      if chosen.value == {} {
        return Ok(("", Print(rejected)));
      }
      ApplySelected(book, service, node, chosen.value, eligible, requested, policy, pool, recheck);
      var error := ApplyNumaExplicitAllocation(service, topology, numaNode, chosen.value, Some(policy), pool,
        eligible, recheck);
      if error.Some? {
        return Err(error.value);
      }
      r := Ok((Print(chosen.value), ""));
    }

    /** The release branch: the service's CPUs in the node, without any guard. */
    method ReleaseInNode(service: string, node: set<nat>)
      requires Valid()
      modifies this
      ensures Valid() && Book() == Subtract(old(Book()), {service}, node)
    {
      hide Cpus, Fields, Decode, Subtract, SubtractGuard;
      ghost var book := Book();
      var inNode := node * ServiceSet(service);
      NoRequesterNoGuard(book, service, inNode);
      OwnOverlap(Snap(), allocatedCpus, explicitlyAllocatedCpus, service, node);
      var error := SubtractCpusFromService(service, inNode, None);
    }

    /** `allocate_numa_cores` between the policy check and the application. */
    method ChooseForNuma(
      service: string, node: set<nat>, count: nat, eligible: set<nat>, policy: Policy, pool: Pool, siblings: Siblings)
      returns (chosen: Result<set<nat>, Error>, rejected: set<nat>)
      requires Valid() && count > 0
      ensures chosen == NumaChoice(Book(), service, node, count, eligible, policy, pool, siblings)
      ensures rejected == node * eligible * Unavailable(Book(), service, policy, pool)
      ensures chosen.Ok? ==> chosen.value <= NumaCandidates(Book(), service, node * eligible, policy, pool)
      ensures chosen.Ok? ==> Owned(Book(), service) <= eligible
    {
      hide Fields, Decode, Unavailable, Select, Lowest, SelectStable;
      var unavailable := WithheldByOthers(service, policy, pool);
      var candidates := node * eligible - unavailable;
      rejected := node * eligible * unavailable;
      if !(ServiceSet(service) <= eligible) {
        return Err(ClaimsOutsidePool), rejected;
      }
      if |candidates| < count {
        return Ok({}), rejected;
      }
      var selected: set<nat>;
      if policy == NonPreemptive {
        selected := SelectStableCpus(ServiceSet(service), candidates, count, siblings);
      } else {
        selected := SelectSmtAware(candidates, siblings, count);
      }
      NumaSelectionExact(Book(), service, candidates, count, policy, siblings);
      if |selected| != count || !(selected <= candidates) {
        assert false;
        return Err(BadSelection), rejected;
      }
      chosen := Ok(selected);
    }
  }

  /** `AllocationsDB()`: empty fields, then the stored ledger. `stored` is None when it cannot be
      read; the result is None where the constructor raises. */
  method Open(stored: Option<Snapshot>) returns (db: Option<AllocationsDB>)
    ensures db.Some? <==> stored.Some? && Loadable(stored.value)
    ensures db.Some? ==> fresh(db.value) && db.value.Snap() == stored.value
    ensures db.Some? && Consistent(stored.value) ==> db.value.Valid()
  {
    hide Fields, Decode, Loadable, Consistent;
    var empty := new AllocationsDB();
    if stored.None? {
      return None;
    }
    var loaded := empty.LoadSnapshot(stored.value);
    db := if loaded.Ok? then Some(empty) else None;
  }

  /** What `allocate_cores` raises, in the order of its checks. */
  ghost function AllocateCoresError(
    book: Book, service: string, text: string, requested: Option<Policy>, pool: Pool): Option<Error> {
    if InOtherPool(book, service, pool) then Some(WrongPool)
    else if text == "" then None
    else if EffectivePolicy(book, service, requested).None? then Some(ProtectedDowngrade)
    else if !Parses(text) then Some(MalformedRanges)
    else match Replace(book, service, Cpus(text), requested, pool) case Ok(_) => None case Err(e) => Some(e)
  }

  lemma OthersAreTheRest(s: Snapshot, claimed: set<nat>, explicit: set<nat>, service: string)
    requires Fields(s, claimed, explicit)
    ensures claimed - StoredClaims(s, service) == ClaimedByOthers(Decode(s), service)
  {
    FieldsOwned(s, claimed, explicit, service);
    ClaimedSplit(Decode(s), service);
    hide Decode, WellFormed;
  }

  lemma ReleaseThenGrant(book: Book, service: string, cpus: set<nat>, policy: Policy, pool: Pool)
    ensures Release(book, service)[service := Entry(cpus, {}, policy, pool)]
         == CountGrant(book, service, cpus, policy, pool)
    ensures ClaimedByOthers(Release(book, service), service) == ClaimedByOthers(book, service)
    ensures service !in Release(book, service)
  {
    var left := Release(book, service)[service := Entry(cpus, {}, policy, pool)];
    var right := CountGrant(book, service, cpus, policy, pool);
    assert left.Keys == right.Keys;
    assert forall n :: n in Release(book, service) && n != service <==> n in book && n != service;
  }

  lemma NothingStored(s: Snapshot, claimed: set<nat>, explicit: set<nat>, service: string)
    requires Fields(s, claimed, explicit) && service !in Decode(s)
    ensures StoredClaims(s, service) == {} && StoredExplicit(s, service) == {}
  {
    FieldsOwned(s, claimed, explicit, service);
    hide Decode;
  }

  /** The selection of `allocate_count`: what the pinning helper dedicates, replaced by the
      stable choice for a protected service; None when nothing would be dedicated. */
  method SelectForCount(
    ghost book: Book, service: string, owned: set<nat>, candidates: set<nat>, count: int, policy: Policy,
    siblings: Siblings)
    returns (r: Option<set<nat>>)
    requires count <= |candidates| && owned == Owned(book, service)
    ensures var size := CountSize(candidates, count);
            && size <= |candidates|
            && r == (if size == 0 then None else Some(CountSelection(book, service, candidates, size, policy, siblings)))
            && (r.Some? ==> r.value <= candidates && |r.value| == size)
  {
    hide Print, InlineParse, Lowest, DefaultSize, SelectStable, Cpus;
    RoundTrip(candidates);
    if candidates != {} {
      InlineParsesPrinted(candidates);
    }
    var pinned := CalculateCpuPinning(Print(candidates), count);
    ghost var size := CountSize(candidates, count);
    ghost var low := Lowest(candidates, size);
    RoundTrip(low);
    LowestIsLowest(candidates, size);
    CpusOfPrint(low);
    if candidates == {} {
      return None;
    }
    assert pinned == Some((Print(candidates - low), Print(low)));
    if pinned.value.1 == "" {
      return None;
    }
    var selected := Cpus(pinned.value.1);
    var target := if count > 0 then count else |selected|;
    if policy == NonPreemptive {
      selected := SelectStableCpus(owned, candidates, target, siblings);
    }
    CountSelectionExact(book, service, candidates, size, policy, siblings);
    r := Some(selected);
  }

  /** `_select_stable`. */
  method SelectStableCpus(
    owned: set<nat>, candidates: set<nat>, count: nat, siblings: Siblings) returns (selected: set<nat>)
    requires count <= |candidates|
    ensures selected == SelectStable(owned, candidates, siblings, count)
  {
    hide Select, Sorted;
    var own := owned * candidates;
    var kept := Prefix(Sorted(own), count);
    var retained := Elements(kept);
    if count <= |own| {
      LowestIsLowest(own, count);
      return retained;
    }
    assert retained == own;
    var rest := SelectSmtAware(candidates - own, siblings, count - |retained|);
    selected := retained + rest;
  }

  /** `allocate_count` on the ledger it finds; the eligible CPUs arrive as a range string. */
  ghost function CountResult(
    book: Book, service: string, count: int, eligibleText: string, requested: Option<Policy>, pool: Pool,
    recheck: Option<set<nat>>, siblings: Siblings): Result<Grant, Error>
  {
    if !InOtherPool(book, service, pool) && EffectivePolicy(book, service, requested).Some? && !Parses(eligibleText)
    then Err(MalformedRanges)
    else Count(book, service, count, Cpus(eligibleText), requested, pool, recheck, siblings)
  }

  /** The overlap check of `allocate_cores` never fires for CPUs that `allocate_count` selected. */
  lemma ReplaceSucceeds(
    book: Book, service: string, selected: set<nat>, eligible: set<nat>, policy: Policy, requested: Option<Policy>,
    pool: Pool)
    requires !InOtherPool(book, service, pool) && EffectivePolicy(book, service, requested) == Some(policy)
    requires selected != {} && selected <= CountCandidates(book, service, eligible)
    ensures Replace(book, service, selected, Some(policy), pool)
         == Ok(CountGrant(book, service, selected, policy, pool))
  {
    DifferenceFacts(selected, ClaimedByOthers(book, service));
  }

  // ---------- The loops over owners ----------

  ghost function WithheldBy(book: Book, owners: set<string>, service: string, policy: Policy, pool: Pool): set<nat> {
    set n, c | n in owners && n in book && n != service && c in Withheld(book[n], policy, pool) :: c
  }

  lemma WithheldGrows(book: Book, owners: set<string>, owner: string, service: string, policy: Policy, pool: Pool)
    requires owner in book
    ensures WithheldBy(book, owners + {owner}, service, policy, pool)
         == WithheldBy(book, owners, service, policy, pool) + if owner == service then {} else Withheld(book[owner], policy, pool)
  {
  }

  lemma WithheldByAll(book: Book, owners: set<string>, service: string, policy: Policy, pool: Pool)
    requires owners == book.Keys
    ensures WithheldBy(book, owners, service, policy, pool) == Unavailable(book, service, policy, pool)
  {
  }

  lemma SubtractNobody(book: Book, cpus: set<nat>)
    ensures Subtract(book, {}, cpus) == book
  {
  }

  /** After taking from `done`, the next owner is as before and the guard lets the requester pass. */
  lemma OverlapStep(
    book: Book, done: set<string>, owner: string, selected: set<nat>, service: string, policy: Policy, pool: Pool)
    requires WellFormed(book) && owner in book && owner !in done && owner != service && service !in done
    requires MayTake(book[owner], selected, policy, pool)
    requires !InOtherPool(book, service, pool) && EffectivePolicy(book, service, Some(policy)) == Some(policy)
    ensures var now := Subtract(book, done, selected);
            && SubtractGuard(now, owner, book[owner].cpus * selected, Some(Requester(service, Some(policy), pool)))
               == None
            && Subtract(now, {owner}, book[owner].cpus * selected) == Subtract(book, done + {owner}, selected)
  {
    var now := Subtract(book, done, selected);
    assert owner in now && now[owner] == book[owner];
    assert book[owner].cpus * (book[owner].cpus * selected) == book[owner].cpus * selected;
    SubtractKeeps(book, done, selected);
    SubtractOverlap(now, owner, selected);
    SubtractMore(book, done, owner, selected);
  }

  lemma RemoveAbsent<K, V>(m: map<K, V>, key: K)
    requires key !in m
    ensures m - {key} == m
  {
  }

  /** The overlaps computed up front are the intersections with the owners' claims. */
  lemma OverlapsOf(
    s: Snapshot, claimed: set<nat>, explicit: set<nat>, service: string, selected: set<nat>,
    overlaps: map<string, set<nat>>, policy: Policy, pool: Pool)
    requires Fields(s, claimed, explicit)
    requires overlaps.Keys == s.allocations.Keys - {service}
    requires forall n :: n in overlaps ==> overlaps[n] == Owned(Decode(s), n) * selected
    ensures overlaps.Keys == Decode(s).Keys - {service}
    ensures forall n :: n in overlaps ==>
              && overlaps[n] == Decode(s)[n].cpus * selected
              && (overlaps[n] != {} && !Reclaimable(Decode(s)[n], overlaps[n], policy, pool)
                  <==> !MayTake(Decode(s)[n], selected, policy, pool))
  {
    hide Cpus, Reclaimable;
    var book := Decode(s);
    assert book.Keys == s.allocations.Keys;
    hide Decode, Fields;
    forall n | n in overlaps
      ensures overlaps[n] == book[n].cpus * selected
      ensures (overlaps[n] != {} && !Reclaimable(book[n], overlaps[n], policy, pool))
              <==> !MayTake(book[n], selected, policy, pool)
    {
      assert Owned(book, n) == book[n].cpus;
    }
  }

  lemma NoRequesterNoGuard(book: Book, service: string, cpus: set<nat>)
    ensures SubtractGuard(book, service, cpus, None) == None
  {
  }

  /** After the service's own CPUs in the node are gone, the other owners are as before and the
      requester still passes the pool and policy checks, even if its entry disappeared. */
  lemma OwnNodeReleased(
    book: Book, service: string, node: set<nat>, policy: Policy, requested: Option<Policy>, pool: Pool)
    requires WellFormed(book)
    requires !InOtherPool(book, service, pool) && EffectivePolicy(book, service, requested) == Some(policy)
    ensures var now := Subtract(book, {service}, node);
            && Subtract(book, {service}, node * Owned(book, service)) == now
            && WellFormed(now)
            && now.Keys - {service} == book.Keys - {service}
            && (forall n :: n in book && n != service ==> now[n] == book[n])
            && !InOtherPool(now, service, pool) && EffectivePolicy(now, service, Some(policy)) == Some(policy)
  {
    SubtractKeeps(book, {service}, node);
    SubtractOwn(book, service, node);
  }

  /** After the victims have given way, the new claim is free and the result is the grant. */
  lemma ClaimReady(book: Book, service: string, node: set<nat>, selected: set<nat>, policy: Policy, pool: Pool)
    requires WellFormed(book)
    ensures var own, marked := Owned(book, service), OwnedExplicitly(book, service);
            var left := Subtract(Subtract(book, {service}, node), book.Keys - {service}, selected);
            var updated, explicit := (own - node * own) + selected, (marked - node * own) + selected;
            && own - node * own == own - node && marked - node * own == marked - node
            && explicit <= updated
            && Owned(left, service) <= updated && OwnedExplicitly(left, service) <= explicit
            && updated !! ClaimedByOthers(left, service)
            && (updated == {} ==> left == Subtract(book, {service}, node))
            && (updated != {} ==>
                  left[service := Entry(updated, explicit, policy, pool)]
                  == NumaGrant(book, service, node, selected, policy, pool))
  {
    var own, marked := Owned(book, service), OwnedExplicitly(book, service);
    assert own - node * own == own - node && marked - node * own == marked - node;
    var updated := (own - node) + selected;
    if updated == {} {
      assert selected == {};
      TakeNothing(Subtract(book, {service}, node), book.Keys - {service});
    } else {
      if selected == {} { assert own - node != {}; }
      NumaGrantInSteps(book, service, node, selected, policy, pool);
    }
  }

  lemma TakeNothing(book: Book, owners: set<string>)
    requires forall n :: n in book ==> book[n].cpus != {}
    ensures Subtract(book, owners, {}) == book
  {
    forall n | n in book ensures n in Subtract(book, owners, {}) && Subtract(book, owners, {})[n] == book[n] {
      assert book[n].cpus - {} == book[n].cpus && book[n].explicit - {} == book[n].explicit;
    }
  }

  lemma OwnOverlap(s: Snapshot, claimed: set<nat>, explicit: set<nat>, service: string, node: set<nat>)
    requires Fields(s, claimed, explicit)
    ensures Subtract(Decode(s), {service}, node * Owned(Decode(s), service)) == Subtract(Decode(s), {service}, node)
  {
    FieldsOwned(s, claimed, explicit, service);
    SubtractOwn(Decode(s), service, node);
  }

  /** Once CPUs were chosen among the candidates, applying them can only fail on the online
      check; when that passes, no guard refuses and the grant is made. */
  lemma ApplySelected(
    book: Book, service: string, node: set<nat>, selected: set<nat>, eligible: set<nat>, requested: Option<Policy>,
    policy: Policy, pool: Pool, recheck: Option<set<nat>>)
    requires WellFormed(book) && !InOtherPool(book, service, pool)
    requires EffectivePolicy(book, service, requested) == Some(policy)
    requires Owned(book, service) <= eligible
    requires selected != {} && selected <= NumaCandidates(book, service, node * eligible, policy, pool)
    ensures ApplyNuma(book, service, node, selected, eligible, Some(policy), pool, recheck)
         == if ConfirmedOnline(selected, recheck) then Ok(NumaGrant(book, service, node, selected, policy, pool))
            else Err(OnlineError(recheck))
  {
    forall n | n in book && n != service ensures MayTake(book[n], selected, policy, pool) {
      CandidatesAreReclaimable(book, service, node * eligible, policy, pool, selected, n);
    }
    hide MayTake, NumaGrant, ConfirmedOnline;
    assert !Refused(book, service, selected, policy, pool);
    assert selected <= node * eligible;
  }

  /** Parses every stored string and unites the results; None when one does not parse. */
  method ParseAll(strings: map<string, string>) returns (r: Option<set<nat>>)
    ensures r.Some? <==> forall n :: n in strings ==> Parses(strings[n])
    ensures r.Some? ==> r.value == set n, c | n in strings && c in Cpus(strings[n]) :: c
  {
    hide ParseCpuRanges;
    var cpus: set<nat> := {};
    var todo := strings.Keys;
    while todo != {}
      invariant todo <= strings.Keys
      invariant forall n :: n in strings && n !in todo ==> Parses(strings[n])
      invariant cpus == set n, c | n in strings && n !in todo && c in Cpus(strings[n]) :: c
      decreases todo
    {
      var name :| name in todo;
      var parsed := ParseCpuRanges(strings[name]);
      if parsed.None? {
        return None;
      }
      assert parsed.value == Cpus(strings[name]);
      cpus := cpus + parsed.value;
      todo := todo - {name};
    }
    r := Some(cpus);
  }

  lemma UnionsOfStrings(s: Snapshot, claimed: set<nat>, explicit: set<nat>)
    requires claimed == set n, c | n in s.allocations && c in Cpus(s.allocations[n]) :: c
    requires explicit == set n, c | n in s.explicitAllocations && c in Cpus(s.explicitAllocations[n]) :: c
    ensures claimed == Claimed(Decode(s))
    ensures s.explicitAllocations.Keys <= s.allocations.Keys ==> explicit == ClaimedExplicitly(Decode(s))
  {
    hide Cpus;
    var book := Decode(s);
    forall c ensures c in claimed <==> c in Claimed(book) {
      if c in claimed {
        var n :| n in s.allocations && c in Cpus(s.allocations[n]);
        assert n in book && c in book[n].cpus;
      }
      if c in Claimed(book) {
        var n :| n in book && c in book[n].cpus;
        assert n in s.allocations && c in Cpus(s.allocations[n]);
      }
    }
    if s.explicitAllocations.Keys <= s.allocations.Keys {
      forall c ensures c in explicit <==> c in ClaimedExplicitly(book) {
        if c in explicit {
          var n :| n in s.explicitAllocations && c in Cpus(s.explicitAllocations[n]);
          assert n in book && c in book[n].explicit;
        }
        if c in ClaimedExplicitly(book) {
          var n :| n in book && c in book[n].explicit;
          assert n in s.explicitAllocations && c in Cpus(s.explicitAllocations[n]);
        }
      }
    }
  }

  /** Saving and reloading reproduces all six fields: the stored maps determine the caches. */
  lemma SnapshotDeterminesFields(a: AllocationsDB, b: AllocationsDB)
    requires a.Valid() && b.Valid() && a.Snap() == b.Snap()
    ensures a.allocations == b.allocations && a.allocatedCpus == b.allocatedCpus
    ensures a.explicitAllocations == b.explicitAllocations && a.explicitlyAllocatedCpus == b.explicitlyAllocatedCpus
    ensures a.preemptionPolicies == b.preemptionPolicies && a.allocationPools == b.allocationPools
  {
  }
}

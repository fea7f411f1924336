/** What a granted request hands out, how the numbers in its reply add up, and that
    repeating it changes nothing. */
module Grants {
  import opened Wrappers
  import opened SortedSets
  import opened SmtSelection
  import opened Sizing
  import opened Ledger
  import opened Requests
  import opened Guarantees

  // ---------- Count requests ----------

  lemma CountGrantClaims(book: Book, service: string, selected: set<nat>, policy: Policy, pool: Pool)
    ensures ClaimedByOthers(CountGrant(book, service, selected, policy, pool), service)
         == ClaimedByOthers(book, service)
    ensures Claimed(CountGrant(book, service, selected, policy, pool)) == ClaimedByOthers(book, service) + selected
  {
    var after := CountGrant(book, service, selected, policy, pool);
    assert forall n :: n in after && n != service <==> n in book && n != service;
    assert forall n :: n in book && n != service ==> after[n] == book[n];
    forall c | c in selected ensures c in Claimed(after) {
      assert service in after && c in after[service].cpus;
    }
    forall c | c in ClaimedByOthers(book, service) ensures c in Claimed(after) {
      var n :| n in book && n != service && c in book[n].cpus;
      assert n in after && c in after[n].cpus;
    }
  }

  lemma CountGranted(
    book: Book, service: string, count: int, eligible: set<nat>, requested: Option<Policy>, pool: Pool,
    recheck: Option<set<nat>>, siblings: Siblings) returns (candidates: set<nat>, size: nat, selected: set<nat>,
    policy: Policy)
    requires Count(book, service, count, eligible, requested, pool, recheck, siblings).Ok?
    ensures candidates == CountCandidates(book, service, eligible) && size == CountSize(candidates, count)
    ensures 0 < size <= |candidates| && |selected| == size && selected <= candidates
    ensures selected == CountSelection(book, service, candidates, size, policy, siblings)
    ensures EffectivePolicy(book, service, requested) == Some(policy) && !InOtherPool(book, service, pool)
    ensures ConfirmedOnline(selected, recheck) && Owned(book, service) <= eligible && count <= |candidates|
    ensures Count(book, service, count, eligible, requested, pool, recheck, siblings)
         == Ok(Grant(CountGrant(book, service, selected, policy, pool), candidates - selected, selected))
  {
    hide CountSelection, ClaimedByOthers;
    policy := EffectivePolicy(book, service, requested).value;
    candidates := CountCandidates(book, service, eligible);
    size := CountSize(candidates, count);
    selected := CountSelection(book, service, candidates, size, policy, siblings);
    CountSelectionExact(book, service, candidates, size, policy, siblings);
  }

  /** The three shares of the pool: granted, still free, and eligible but held by others. */
  lemma CountAccounting(
    book: Book, service: string, count: int, eligible: set<nat>, requested: Option<Policy>, pool: Pool,
    recheck: Option<set<nat>>, siblings: Siblings)
    requires Count(book, service, count, eligible, requested, pool, recheck, siblings).Ok?
    ensures var grant := Count(book, service, count, eligible, requested, pool, recheck, siblings).value;
            && grant.first == eligible - Claimed(grant.book)
            && |grant.first| == Remaining(grant.book, eligible)
            && |grant.second| + Remaining(grant.book, eligible) + |eligible * ClaimedByOthers(book, service)|
               == |eligible|
            && Owned(grant.book, service) == grant.second != {}
            && grant.second !! ClaimedByOthers(book, service)
            && |grant.second| == (if count > 0 then count else DefaultSize(|CountCandidates(book, service, eligible)|))
  {
    var candidates, size, selected, policy := CountGranted(book, service, count, eligible, requested, pool, recheck,
      siblings);
    CountGrantClaims(book, service, selected, policy, pool);
    Shares(eligible, ClaimedByOthers(book, service), selected);
    hide Count, ClaimedByOthers, Claimed, CountSelection;
  }

  lemma Shares(eligible: set<nat>, others: set<nat>, selected: set<nat>)
    requires selected <= eligible - others
    ensures eligible - others - selected == eligible - (others + selected)
    ensures |selected| + |eligible - (others + selected)| + |eligible * others| == |eligible|
  {
    SubsetSize(selected, eligible - others);
    SubsetSize(eligible * others, eligible);
    assert eligible - eligible * others == eligible - others;
  }

  /** The guards of a count request, read forwards. */
  lemma CountSucceeds(
    book: Book, service: string, count: int, eligible: set<nat>, requested: Option<Policy>, pool: Pool,
    recheck: Option<set<nat>>, siblings: Siblings, policy: Policy)
    requires !InOtherPool(book, service, pool) && EffectivePolicy(book, service, requested) == Some(policy)
    requires Owned(book, service) <= eligible
    requires count <= |CountCandidates(book, service, eligible)|
    requires CountSize(CountCandidates(book, service, eligible), count) > 0
    requires var candidates := CountCandidates(book, service, eligible);
             ConfirmedOnline(CountSelection(book, service, candidates, CountSize(candidates, count), policy, siblings), recheck)
    ensures var candidates := CountCandidates(book, service, eligible);
            var selected := CountSelection(book, service, candidates, CountSize(candidates, count), policy, siblings);
            Count(book, service, count, eligible, requested, pool, recheck, siblings)
            == Ok(Grant(CountGrant(book, service, selected, policy, pool), candidates - selected, selected))
  {
    hide CountSelection, CountCandidates, CountGrant;
  }

  lemma CountSelectionAgain(
    book: Book, after: Book, service: string, candidates: set<nat>, size: nat, policy: Policy, siblings: Siblings)
    requires size <= |candidates|
    requires Owned(after, service) == CountSelection(book, service, candidates, size, policy, siblings)
    ensures CountSelection(after, service, candidates, size, policy, siblings)
         == CountSelection(book, service, candidates, size, policy, siblings)
  {
    var selected := Owned(after, service);
    CountSelectionExact(book, service, candidates, size, policy, siblings);
    hide SelectStable, Lowest;
    assert selected * candidates == selected;
    SelectOwnAgain(selected, candidates, siblings, size);
  }

  /** Repeating a count request under the same host readings changes neither ledger nor reply. */
  lemma CountIdempotent(
    book: Book, service: string, count: int, eligible: set<nat>, requested: Option<Policy>, pool: Pool,
    recheck: Option<set<nat>>, siblings: Siblings)
    requires Count(book, service, count, eligible, requested, pool, recheck, siblings).Ok?
    ensures var result := Count(book, service, count, eligible, requested, pool, recheck, siblings);
            Count(result.value.book, service, count, eligible, requested, pool, recheck, siblings) == result
  {
    var candidates, size, selected, policy := CountGranted(book, service, count, eligible, requested, pool, recheck,
      siblings);
    hide Count, CountSelection, DefaultSize;
    var after := CountGrant(book, service, selected, policy, pool);
    CountRegrant(book, service, eligible, selected, policy, pool);
    hide CountGrant, CountCandidates;
    CountSelectionAgain(book, after, service, candidates, size, policy, siblings);
    CountSucceeds(after, service, count, eligible, requested, pool, recheck, siblings, policy);
  }

  lemma CountRegrant(book: Book, service: string, eligible: set<nat>, selected: set<nat>, policy: Policy, pool: Pool)
    requires selected <= CountCandidates(book, service, eligible)
    ensures var after := CountGrant(book, service, selected, policy, pool);
            && CountCandidates(after, service, eligible) == CountCandidates(book, service, eligible)
            && service in after && after[service].pool == pool && after[service].policy == policy
            && Owned(after, service) == selected <= eligible
            && CountGrant(after, service, selected, policy, pool) == after
  {
    CountGrantClaims(book, service, selected, policy, pool);
  }

  lemma SelectOwnAgain(owned: set<nat>, candidates: set<nat>, siblings: Siblings, count: nat)
    requires owned * candidates <= owned && |owned * candidates| == count
    ensures SelectStable(owned, candidates, siblings, count) == owned * candidates
  {
    hide Select, Sorted;
    LowestAll(owned * candidates);
  }

  // ---------- NUMA requests ----------

  /** After a NUMA grant the withheld CPUs, hence the candidates, are what they were. */
  lemma NumaGrantCandidates(
    book: Book, service: string, node: set<nat>, eligible: set<nat>, selected: set<nat>, policy: Policy, pool: Pool)
    requires WellFormed(book) && selected != {} && selected <= NumaCandidates(book, service, eligible, policy, pool)
    ensures NumaCandidates(NumaGrant(book, service, node, selected, policy, pool), service, eligible, policy, pool)
         == NumaCandidates(book, service, eligible, policy, pool)
  {
    var after := NumaGrant(book, service, node, selected, policy, pool);
    forall c | c in Unavailable(book, service, policy, pool) ensures c in Unavailable(after, service, policy, pool) {
      var n :| n in book && n != service && c in Withheld(book[n], policy, pool);
      WithheldStays(book, service, node, eligible, selected, policy, pool, n);
      assert n in after && c in Withheld(after[n], policy, pool);
    }
    forall c | c in Unavailable(after, service, policy, pool) ensures c in Unavailable(book, service, policy, pool) {
      var n :| n in after && n != service && c in Withheld(after[n], policy, pool);
      WithheldStays(book, service, node, eligible, selected, policy, pool, n);
      assert n in book && c in Withheld(book[n], policy, pool);
    }
  }

  lemma WithheldStays(
    book: Book, service: string, node: set<nat>, eligible: set<nat>, selected: set<nat>, policy: Policy, pool: Pool,
    n: string)
    requires WellFormed(book) && selected != {} && selected <= NumaCandidates(book, service, eligible, policy, pool)
    requires n != service
    ensures var after := NumaGrant(book, service, node, selected, policy, pool);
            && (n in after ==> n in book && Withheld(after[n], policy, pool) == Withheld(book[n], policy, pool))
            && (n in book && Withheld(book[n], policy, pool) != {} ==> n in after)
  {
    if n in book {
      var entry := book[n];
      assert forall c :: c in Withheld(entry, policy, pool) ==> c in Unavailable(book, service, policy, pool);
      assert selected !! Withheld(entry, policy, pool);
      assert n in book.Keys - {service};
      assert forall c :: c in Withheld(entry, policy, pool) ==> c in entry.cpus - selected;
      assert Withheld(entry, policy, pool) - selected == Withheld(entry, policy, pool);
      assert entry.explicit - selected == entry.explicit by {
        assert forall c :: c in entry.explicit ==> c in Withheld(entry, policy, pool);
      }
    }
  }

  lemma NumaGrantTwice(book: Book, service: string, node: set<nat>, selected: set<nat>, policy: Policy, pool: Pool)
    requires WellFormed(book) && selected != {} && selected <= node
    ensures var after := NumaGrant(book, service, node, selected, policy, pool);
            NumaGrant(after, service, node, selected, policy, pool) == after
  {
    var after := NumaGrant(book, service, node, selected, policy, pool);
    var again := NumaGrant(after, service, node, selected, policy, pool);
    assert (after[service].cpus - node) + selected == after[service].cpus;
    assert (after[service].explicit - node) + selected == after[service].explicit;
    forall n | n in after && n != service ensures n in again && again[n] == after[n] {
      assert n in book.Keys - {service} && n in after.Keys - {service};
      assert after[n].cpus - selected == after[n].cpus && after[n].explicit - selected == after[n].explicit;
    }
    assert again.Keys == after.Keys;
  }

  lemma NumaGrantIsSelection(
    book: Book, service: string, node: set<nat>, count: int, eligible: set<nat>, requested: Option<Policy>, pool: Pool,
    recheck: Option<set<nat>>, siblings: Siblings)
    requires count > 0
    requires Numa(book, service, node, count, eligible, requested, pool, recheck, siblings).Ok?
    requires Numa(book, service, node, count, eligible, requested, pool, recheck, siblings).value.first != {}
    ensures var policy := EffectivePolicy(book, service, requested);
            && policy.Some?
            && var candidates := NumaCandidates(book, service, node * eligible, policy.value, pool);
            && count <= |candidates|
            && Numa(book, service, node, count, eligible, requested, pool, recheck, siblings).value.first
               == NumaSelection(book, service, candidates, count, policy.value, siblings)
  {
    hide NumaSelection, NumaGrant, NumaCandidates;
  }

  /** The guards of a NUMA request, read forwards. */
  lemma NumaSucceeds(
    book: Book, service: string, node: set<nat>, count: int, eligible: set<nat>, requested: Option<Policy>, pool: Pool,
    recheck: Option<set<nat>>, siblings: Siblings, policy: Policy)
    requires count > 0 && !InOtherPool(book, service, pool) && EffectivePolicy(book, service, requested) == Some(policy)
    requires Owned(book, service) <= eligible
    requires count <= |NumaCandidates(book, service, node * eligible, policy, pool)|
    requires var candidates := NumaCandidates(book, service, node * eligible, policy, pool);
             ConfirmedOnline(NumaSelection(book, service, candidates, count, policy, siblings), recheck)
    ensures var candidates := NumaCandidates(book, service, node * eligible, policy, pool);
            var selected := NumaSelection(book, service, candidates, count, policy, siblings);
            Numa(book, service, node, count, eligible, requested, pool, recheck, siblings)
            == Ok(Grant(NumaGrant(book, service, node, selected, policy, pool), selected, {}))
  {
    NumaSelectionExact(book, service, NumaCandidates(book, service, node * eligible, policy, pool), count, policy,
      siblings);
    hide NumaSelection, NumaGrant, NumaCandidates;
  }

  lemma OwnedAfterNuma(
    book: Book, service: string, node: set<nat>, eligible: set<nat>, selected: set<nat>, policy: Policy, pool: Pool,
    candidates: set<nat>)
    requires Owned(book, service) <= eligible && selected <= candidates <= node * eligible
    ensures var after := NumaGrant(book, service, node, selected, policy, pool);
            && service in after && after[service].policy == policy && after[service].pool == pool
            && Owned(after, service) <= eligible
            && Owned(after, service) * candidates == selected
  {
  }

  /** Repeating a NUMA grant changes neither ledger nor result, also when the first one
      took foreign CPUs. */
  lemma NumaIdempotent(
    book: Book, service: string, node: set<nat>, count: int, eligible: set<nat>, requested: Option<Policy>, pool: Pool,
    recheck: Option<set<nat>>, siblings: Siblings)
    requires WellFormed(book) && count > 0
    requires Numa(book, service, node, count, eligible, requested, pool, recheck, siblings).Ok?
    requires Numa(book, service, node, count, eligible, requested, pool, recheck, siblings).value.first != {}
    ensures var result := Numa(book, service, node, count, eligible, requested, pool, recheck, siblings);
            Numa(result.value.book, service, node, count, eligible, requested, pool, recheck, siblings) == result
  {
    var selected, policy := NumaGranted(book, service, node, count, eligible, requested, pool, recheck, siblings);
    NumaGrantIsSelection(book, service, node, count, eligible, requested, pool, recheck, siblings);
    hide Numa;
    NumaRegrant(book, service, node, count, eligible, selected, requested, policy, pool, siblings);
    hide NumaGrant, NumaSelection, NumaCandidates, EffectivePolicy, Owned;
    NumaSucceeds(NumaGrant(book, service, node, selected, policy, pool), service, node, count, eligible, requested,
      pool, recheck, siblings, policy);
  }

  /** In the ledger after a NUMA grant the same request finds the same candidates, makes the
      same selection, and its grant changes nothing. */
  lemma NumaRegrant(
    book: Book, service: string, node: set<nat>, count: nat, eligible: set<nat>, selected: set<nat>,
    requested: Option<Policy>, policy: Policy, pool: Pool, siblings: Siblings)
    requires WellFormed(book) && selected != {} && |selected| == count && Owned(book, service) <= eligible
    requires selected <= node
    requires EffectivePolicy(book, service, requested) == Some(policy)
    requires selected <= NumaCandidates(book, service, node * eligible, policy, pool)
    requires var candidates := NumaCandidates(book, service, node * eligible, policy, pool);
             selected == NumaSelection(book, service, candidates, count, policy, siblings)
    ensures var after := NumaGrant(book, service, node, selected, policy, pool);
            && NumaCandidates(after, service, node * eligible, policy, pool)
               == NumaCandidates(book, service, node * eligible, policy, pool)
            && NumaSelection(after, service, NumaCandidates(after, service, node * eligible, policy, pool),
                             count, policy, siblings) == selected
            && NumaGrant(after, service, node, selected, policy, pool) == after
            && Owned(after, service) <= eligible && !InOtherPool(after, service, pool)
            && EffectivePolicy(after, service, requested) == Some(policy)
  {
    hide WellFormed, Unavailable, SelectStable, Select, Subtract;
    var candidates := NumaCandidates(book, service, node * eligible, policy, pool);
    NumaGrantCandidates(book, service, node, node * eligible, selected, policy, pool);
    NumaGrantTwice(book, service, node, selected, policy, pool);
    OwnedAfterNuma(book, service, node, eligible, selected, policy, pool, candidates);
    hide NumaGrant, NumaCandidates;
    SelectOwnAgain(Owned(NumaGrant(book, service, node, selected, policy, pool), service), candidates, siblings, count);
  }

  // ---------- Protected services keep what they have ----------

  lemma OwnCpusAreFree(book: Book, service: string, policy: Policy, pool: Pool)
    requires WellFormed(book)
    ensures Owned(book, service) !! ClaimedByOthers(book, service)
    ensures Owned(book, service) !! Unavailable(book, service, policy, pool)
  {
  }

  /** A protected count request that grows keeps every CPU of the service; one that shrinks
      only gives CPUs up. */
  lemma ProtectedCountIsStable(
    book: Book, service: string, count: int, eligible: set<nat>, requested: Option<Policy>, pool: Pool,
    recheck: Option<set<nat>>, siblings: Siblings)
    requires WellFormed(book) && EffectivePolicy(book, service, requested) == Some(NonPreemptive)
    requires Count(book, service, count, eligible, requested, pool, recheck, siblings).Ok?
    ensures var granted := Count(book, service, count, eligible, requested, pool, recheck, siblings).value.second;
            && (|granted| >= |Owned(book, service)| ==> Owned(book, service) <= granted)
            && (|granted| <= |Owned(book, service)| ==> granted <= Owned(book, service))
  {
    var candidates, size, selected, policy := CountGranted(book, service, count, eligible, requested, pool, recheck,
      siblings);
    hide Count, SelectStable;
    OwnCpusAreFree(book, service, policy, pool);
    assert Owned(book, service) * candidates == Owned(book, service);
    SelectStableExact(Owned(book, service), candidates, siblings, size);
  }

  lemma NodeClaims(own: set<nat>, node: set<nat>, eligible: set<nat>, withheld: set<nat>, selected: set<nat>)
    requires own <= eligible && own !! withheld && selected <= node
    ensures own * (node * eligible - withheld) == own * node
    ensures ((own - node) + selected) * node == selected && ((own - node) + selected) - node == own - node
  {
  }

  /** The same within the node of a protected NUMA request; outside the node nothing changes. */
  lemma ProtectedNumaIsStable(
    book: Book, service: string, node: set<nat>, count: int, eligible: set<nat>, requested: Option<Policy>, pool: Pool,
    recheck: Option<set<nat>>, siblings: Siblings)
    requires WellFormed(book) && EffectivePolicy(book, service, requested) == Some(NonPreemptive) && count > 0
    requires Numa(book, service, node, count, eligible, requested, pool, recheck, siblings).Ok?
    requires Numa(book, service, node, count, eligible, requested, pool, recheck, siblings).value.first != {}
    ensures var result := Numa(book, service, node, count, eligible, requested, pool, recheck, siblings).value;
            var own := Owned(book, service) * node;
            && (|result.first| >= |own| ==> own <= result.first)
            && (|result.first| <= |own| ==> result.first <= own)
            && Owned(result.book, service) * node == result.first
            && Owned(result.book, service) - node == Owned(book, service) - node
  {
    var selected, policy := NumaGranted(book, service, node, count, eligible, requested, pool, recheck, siblings);
    NumaGrantIsSelection(book, service, node, count, eligible, requested, pool, recheck, siblings);
    hide Numa, SelectStable;
    var candidates := NumaCandidates(book, service, node * eligible, policy, pool);
    OwnCpusAreFree(book, service, policy, pool);
    NodeClaims(Owned(book, service), node, eligible, Unavailable(book, service, policy, pool), selected);
    hide Unavailable, Subtract;
    SelectStableExact(Owned(book, service), candidates, siblings, count);
  }

  // ---------- Whole requests ----------

  /** The reply of a count or percentage grant, in terms of the ledger it commits. */
  lemma CoresReply(request: Request, host: Host, book: Book)
    requires !request.AllocateNuma? && !Releases(request) && Execute(request, host, book).Ok?
    ensures var outcome := Execute(request, host, book).value;
            var eligible := EligibleOf(request, host);
            && outcome.reply.granted == Owned(outcome.book, request.service) != {}
            && outcome.reply.shared == eligible - Claimed(outcome.book)
            && |outcome.reply.shared| == outcome.reply.remaining
            && outcome.reply.total == |eligible|
            && |outcome.reply.granted| + outcome.reply.remaining + |eligible * ClaimedByOthers(book, request.service)|
               == outcome.reply.total
            && outcome.reply.policy == EffectivePolicy(book, request.service, request.policy)
            && (request.AllocateCores? && request.count > 0 ==> |outcome.reply.granted| == request.count)
            && (request.AllocatePercent? ==> |outcome.reply.granted| == PercentSize(|eligible|, request.percent))
  {
    var eligible := EligibleOf(request, host);
    var count := if request.AllocateCores? then request.count else PercentCount(request.percent, eligible);
    var candidates, size, selected, policy := CountGranted(
      book, request.service, count, eligible, request.policy, request.pool, host.recheck, host.siblings);
    CountAccounting(book, request.service, count, eligible, request.policy, request.pool, host.recheck, host.siblings);
    hide Count, Claimed, ClaimedByOthers;
    if request.AllocatePercent? {
      assert eligible != {};
      PercentSizeBounds(|eligible|, request.percent);
    }
  }

  /** The reply of a NUMA grant: exactly the requested number of CPUs, all in the node,
      eligible and confirmed online, and now explicit claims of the service. */
  lemma NumaReply(request: Request, host: Host, book: Book)
    requires WellFormed(book) && request.AllocateNuma? && !Releases(request) && Execute(request, host, book).Ok?
    ensures var outcome := Execute(request, host, book).value;
            && |outcome.reply.granted| == request.count > 0
            && host.topology.Some? && request.node in host.topology.value
            && outcome.reply.granted <= host.topology.value[request.node] * EligibleOf(request, host)
            && ConfirmedOnline(outcome.reply.granted, host.recheck)
            && outcome.reply.granted == Owned(outcome.book, request.service) * host.topology.value[request.node]
            && outcome.reply.granted <= OwnedExplicitly(outcome.book, request.service)
            && outcome.reply.policy == EffectivePolicy(book, request.service, request.policy)
            && outcome.reply.total == |EligibleOf(request, host)|
            && outcome.reply.remaining == |EligibleOf(request, host) - Claimed(outcome.book)|
  {
    var eligible := EligibleOf(request, host);
    NumaHandled(book, request.service, request.pool, request.policy, request.node, request.count, host,
                ConfiguredOf(request, host), eligible);
    var node := host.topology.value[request.node];
    var selected, policy := NumaGranted(
      book, request.service, node, request.count, eligible, request.policy, request.pool, host.recheck, host.siblings);
    hide Numa, Subtract, NumaCandidates, Claimed;
  }

  lemma SubtractTwice(book: Book, service: string, node: set<nat>)
    ensures Subtract(Subtract(book, {service}, node), {service}, node) == Subtract(book, {service}, node)
  {
    var after := Subtract(book, {service}, node);
    forall n | n in after ensures n in Subtract(after, {service}, node) && Subtract(after, {service}, node)[n] == after[n] {
      if n == service {
        assert after[n].cpus - node == after[n].cpus && after[n].explicit - node == after[n].explicit;
      }
    }
  }

  lemma SubtractKeepsPool(book: Book, service: string, node: set<nat>, pool: Pool)
    requires !InOtherPool(book, service, pool)
    ensures !InOtherPool(Subtract(book, {service}, node), service, pool)
  {
  }

  lemma CoresIdempotent(
    book: Book, service: string, pool: Pool, policy: Option<Policy>, count: int,
    host: Host, configured: set<nat>, eligible: set<nat>)
    requires HandleCores(book, service, pool, policy, count, host, configured, eligible).Ok?
    requires var result := HandleCores(book, service, pool, policy, count, host, configured, eligible);
             count != -1 ==> ClaimedIn(result.value.book, pool) <= configured
    ensures var result := HandleCores(book, service, pool, policy, count, host, configured, eligible);
            HandleCores(result.value.book, service, pool, policy, count, host, configured, eligible) == result
  {
    hide Claimed, ClaimedIn;
    if count == -1 {
      assert Release(Release(book, service), service) == Release(book, service);
    } else {
      CountIdempotent(book, service, count, eligible, policy, pool, host.recheck, host.siblings);
      var candidates, size, selected, effective := CountGranted(
        book, service, count, eligible, policy, pool, host.recheck, host.siblings);
      hide Count;
    }
  }

  lemma NumaNeedsPool(
    book: Book, service: string, node: set<nat>, count: int, eligible: set<nat>, requested: Option<Policy>, pool: Pool,
    recheck: Option<set<nat>>, siblings: Siblings)
    requires Numa(book, service, node, count, eligible, requested, pool, recheck, siblings).Ok?
    ensures !InOtherPool(book, service, pool)
  {
    hide NumaChoice, EffectivePolicy, Subtract;
  }

  /** The handler replies alike in two ledgers that its database call cannot tell apart. */
  lemma HandlerFollowsNuma(
    first: Book, second: Book, service: string, pool: Pool, policy: Option<Policy>, node: nat, count: int,
    host: Host, configured: set<nat>, eligible: set<nat>)
    requires HandleNuma(first, service, pool, policy, node, count, host, configured, eligible).Ok?
    requires !InOtherPool(second, service, pool) && (count != -1 ==> ClaimedIn(second, pool) <= configured)
    requires (host.topology.Some? && node in host.topology.value) ==>
      Numa(first, service, host.topology.value[node], count, eligible, policy, pool, host.recheck, host.siblings)
      == Numa(second, service, host.topology.value[node], count, eligible, policy, pool, host.recheck, host.siblings)
    ensures HandleNuma(second, service, pool, policy, node, count, host, configured, eligible)
         == HandleNuma(first, service, pool, policy, node, count, host, configured, eligible)
  {
    hide Numa, ClaimedIn, Claimed, InOtherPool;
  }

  lemma NumaHandlerIdempotent(
    book: Book, service: string, pool: Pool, policy: Option<Policy>, node: nat, count: int,
    host: Host, configured: set<nat>, eligible: set<nat>)
    requires WellFormed(book)
    requires HandleNuma(book, service, pool, policy, node, count, host, configured, eligible).Ok?
    requires var result := HandleNuma(book, service, pool, policy, node, count, host, configured, eligible);
             count != -1 ==> ClaimedIn(result.value.book, pool) <= configured
    ensures var result := HandleNuma(book, service, pool, policy, node, count, host, configured, eligible);
            HandleNuma(result.value.book, service, pool, policy, node, count, host, configured, eligible) == result
  {
    hide WellFormed, HandleNuma, Claimed, ClaimedIn, InOtherPool, PolicyReply, Remaining;
    NumaHandled(book, service, pool, policy, node, count, host, configured, eligible);
    var cpus := host.topology.value[node];
    if count == -1 {
      SubtractTwice(book, service, cpus);
      hide Subtract;
    } else {
      hide Numa;
      NumaIdempotent(book, service, cpus, count, eligible, policy, pool, host.recheck, host.siblings);
    }
    var after := Numa(book, service, cpus, count, eligible, policy, pool, host.recheck, host.siblings).value.book;
    if count == -1 { SubtractKeepsPool(book, service, cpus, pool); }
    NumaNeedsPool(after, service, cpus, count, eligible, policy, pool, host.recheck, host.siblings);
    HandlerFollowsNuma(book, after, service, pool, policy, node, count, host, configured, eligible);
  }

  /** Any request repeated under the same host readings gives the same ledger and the same reply,
      including a release and a legacy NUMA grant that reclaimed foreign CPUs the first time. */
  lemma RequestsAreIdempotent(request: Request, host: Host, book: Book)
    requires WellFormed(book) && Execute(request, host, book).Ok?
    ensures Execute(request, host, Execute(request, host, book).value.book) == Execute(request, host, book)
  {
    if !Releases(request) {
      PoolConfinement(request, host, book);
    }
    var configured, eligible := ConfiguredOf(request, host), EligibleOf(request, host);
    match request
    case AllocateCores(service, pool, policy, count) =>
      CoresIdempotent(book, service, pool, policy, count, host, configured, eligible);
      hide HandleCores, HandleNuma, ClaimedIn;
    case AllocatePercent(service, pool, policy, percent) =>
      CoresIdempotent(book, service, pool, policy, PercentCount(percent, eligible), host, configured, eligible);
      hide HandleCores, HandleNuma, ClaimedIn;
    case AllocateNuma(service, pool, policy, node, count) =>
      NumaHandlerIdempotent(book, service, pool, policy, node, count, host, configured, eligible);
      hide HandleCores, HandleNuma, ClaimedIn;
  }
}

/** What a request commits and what its reply says, read off the host and the two ledgers alone. */
module Replies {
  import opened Wrappers
  import opened Ledger
  import opened Requests
  import opened Guarantees
  import opened Grants
  import opened Conditions
  import ReleaseRequests

  /** The usable CPUs of the pool that nobody owns. */
  ghost function Unowned(host: Host, pool: Pool, book: Book): set<nat> {
    set cpu | cpu in Usable(host, pool) && forall n :: n in book ==> cpu !in book[n].cpus
  }

  lemma UnownedIsRemaining(host: Host, pool: Pool, book: Book)
    ensures Unowned(host, pool, book) == Usable(host, pool) - Claimed(book)
  {
    forall cpu | cpu in Claimed(book) ensures cpu !in Unowned(host, pool, book) {
      var n :| n in book && cpu in book[n].cpus;
    }
  }

  /** Every reply counts the CPUs that are both in the pool and online, and of these the ones
      nobody owns afterwards. What is granted was online at both readings; without the first one
      only releases succeed, and they count no capacity. */
  lemma ReplyCounts(request: Request, host: Host, book: Book)
    requires WellFormed(book) && Execute(request, host, book).Ok?
    ensures var outcome := Execute(request, host, book).value;
            var usable, free := Usable(host, request.pool), Unowned(host, request.pool, outcome.book);
            && outcome.reply.total == |usable| && outcome.reply.remaining == |free|
            && outcome.reply.shared == (if request.AllocateNuma? then {} else free)
            && (host.online.None? ==> Releases(request) && outcome.reply.total == 0)
            && (Releases(request) ==> outcome.reply.granted == {})
            && (!Releases(request) ==>
                  && host.recheck.Some? && outcome.reply.granted <= usable
                  && outcome.reply.granted <= host.recheck.value)
  {
    hide Execute, WellFormed, Usable, EligibleOf, ConfiguredOf, Eligible, Configured, Claimed, EffectivePolicy,
      ClaimedByOthers, PoolExists, MayAsk, Unowned;
    var after := Execute(request, host, book).value.book;
    UnownedIsRemaining(host, request.pool, after);
    PoolOfOutcome(request, host, book);
    EligibleIsUsable(request, host);
    if host.online.None? { NothingUsable(host, request.pool); }
    if Releases(request) {
      ReleaseRequests.ReplyOfRelease(request, host, book);
      if request.AllocateNuma? { NumaReleaseSharesNothing(request, host, book); }
    } else if request.AllocateNuma? {
      NumaReply(request, host, book);
      NumaGrantSharesNothing(request, host, book);
    } else {
      CoresReply(request, host, book);
      CoresConfirmed(request, host, book);
    }
  }

  lemma NothingUsable(host: Host, pool: Pool)
    requires host.online.None?
    ensures Usable(host, pool) == {}
  {
  }

  lemma PoolOfOutcome(request: Request, host: Host, book: Book)
    requires Execute(request, host, book).Ok?
    ensures PoolExists(host, request.pool) && (host.online.Some? || Releases(request))
  {
    hide HandleCores, HandleNuma;
  }

  lemma NumaReleaseSharesNothing(request: Request, host: Host, book: Book)
    requires request.AllocateNuma? && Releases(request) && Execute(request, host, book).Ok?
    ensures Execute(request, host, book).value.reply.shared == {}
  {
    hide Claimed, ClaimedIn, Subtract, NumaChoice;
  }

  lemma NumaGrantSharesNothing(request: Request, host: Host, book: Book)
    requires request.AllocateNuma? && Execute(request, host, book).Ok?
    ensures Execute(request, host, book).value.reply.shared == {}
  {
    hide Claimed, ClaimedIn, Numa;
  }

  lemma CoresConfirmed(request: Request, host: Host, book: Book)
    requires !request.AllocateNuma? && !Releases(request) && Execute(request, host, book).Ok?
    ensures Execute(request, host, book).value.reply.granted <= Usable(host, request.pool)
    ensures ConfirmedOnline(Execute(request, host, book).value.reply.granted, host.recheck)
  {
    hide Execute, MayAsk, Usable, Acting, Wanted, Free;
    CountGrantIff(request, host, book);
    var free := Free(request, host, book);
    CountSelectionExact(book, request.service, free, Wanted(request, |Usable(host, request.pool)|, |free|),
      Acting(request, book), host.siblings);
    FreeIsUsable(request, host, book);
  }

  lemma FreeIsUsable(request: Request, host: Host, book: Book)
    ensures Free(request, host, book) <= Usable(host, request.pool)
  {
  }

  /** The ledger after a grant: the service owns what the reply lists under the policy it acts
      with, explicitly if it asked for a node, whose other claims of its own are gone; others keep
      all but what the reply lists, and nobody appears. The reply names that policy. */
  lemma GrantCommits(request: Request, host: Host, book: Book)
    requires WellFormed(book) && !Releases(request) && Execute(request, host, book).Ok?
    ensures request.AllocateNuma? ==> NodeKnown(request, host)
    ensures var outcome := Execute(request, host, book).value;
            var granted, kept := outcome.reply.granted, KeptOutside(request, host, book);
            && Lookup(outcome.book, request.service)
               == Some(Entry(kept.0 + granted, if request.AllocateNuma? then kept.1 + granted else {},
                             Acting(request, book), request.pool))
            && outcome.reply.policy == Some(Acting(request, book))
    ensures forall n :: n != request.service ==>
              Lookup(Execute(request, host, book).value.book, n)
              == if n in book then Without(book[n], Execute(request, host, book).value.reply.granted) else None
  {
    hide Execute, WellFormed, Acting, EffectivePolicy, EligibleOf, ConfiguredOf, ClaimedIn, Claimed, ClaimedByOthers;
    ActingIsEffective(request, book);
    var outcome := Execute(request, host, book).value;
    if request.AllocateNuma? {
      NumaGrantCommits(request, host, book);
    } else {
      CoresGrantCommits(request, host, book);
      assert {} + outcome.reply.granted == outcome.reply.granted;
    }
  }

  /** Own claims, and explicit ones, that lie outside the node a request names. */
  function KeptOutside(request: Request, host: Host, book: Book): (set<nat>, set<nat>)
    requires request.AllocateNuma? ==> NodeKnown(request, host)
  {
    if !request.AllocateNuma? then ({}, {})
    else (Owned(book, request.service) - host.topology.value[request.node],
          OwnedExplicitly(book, request.service) - host.topology.value[request.node])
  }

  lemma CoresGrantCommits(request: Request, host: Host, book: Book)
    requires WellFormed(book) && !Releases(request) && Execute(request, host, book).Ok? && !request.AllocateNuma?
    ensures var outcome := Execute(request, host, book).value;
            && EffectivePolicy(book, request.service, request.policy).Some?
            && var policy := EffectivePolicy(book, request.service, request.policy).value;
               && Lookup(outcome.book, request.service) == Some(Entry(outcome.reply.granted, {}, policy, request.pool))
               && outcome.reply.policy == Some(policy)
    ensures forall n :: n != request.service ==>
              Lookup(Execute(request, host, book).value.book, n)
              == if n in book then Without(book[n], Execute(request, host, book).value.reply.granted) else None
  {
    hide Execute, WellFormed, EffectivePolicy, EligibleOf, ConfiguredOf, ClaimedIn, Claimed, Without, ClaimedByOthers;
    CoresReply(request, host, book);
    var effect := ExecuteEffect(request, host, book);
    var outcome := Execute(request, host, book).value;
    assert effect.GrantedCount?;
    assert outcome.reply.granted == effect.selected;
    forall n | n != request.service
      ensures Lookup(outcome.book, n) == if n in book then Without(book[n], outcome.reply.granted) else None
    {
      if n in book { UntouchedIsWithout(book, request.service, n, outcome.reply.granted); }
    }
  }

  lemma UntouchedIsWithout(book: Book, service: string, other: string, granted: set<nat>)
    requires WellFormed(book) && other in book && other != service && granted !! ClaimedByOthers(book, service)
    ensures Without(book[other], granted) == Some(book[other])
  {
    assert forall cpu :: cpu in book[other].cpus ==> cpu in ClaimedByOthers(book, service);
    assert book[other].cpus - granted == book[other].cpus;
  }

  lemma NumaGrantCommits(request: Request, host: Host, book: Book)
    requires WellFormed(book) && !Releases(request) && Execute(request, host, book).Ok? && request.AllocateNuma?
    ensures NodeKnown(request, host) && EffectivePolicy(book, request.service, request.policy).Some?
    ensures var outcome := Execute(request, host, book).value;
            var policy, node := EffectivePolicy(book, request.service, request.policy).value, host.topology.value[request.node];
            && Lookup(outcome.book, request.service)
               == Some(Entry((Owned(book, request.service) - node) + outcome.reply.granted,
                             (OwnedExplicitly(book, request.service) - node) + outcome.reply.granted, policy, request.pool))
            && outcome.reply.policy == Some(policy)
    ensures forall n :: n != request.service ==>
              Lookup(Execute(request, host, book).value.book, n)
              == if n in book then Without(book[n], Execute(request, host, book).value.reply.granted) else None
  {
    hide Execute, WellFormed, EffectivePolicy, EligibleOf, ConfiguredOf, ClaimedIn, Claimed, Without, NumaCandidates,
      NumaGrant;
    NumaReply(request, host, book);
    var effect := ExecuteEffect(request, host, book);
    var outcome := Execute(request, host, book).value;
    assert effect.GrantedNuma?;
    var node := host.topology.value[request.node];
    NumaGrantEntries(book, request.service, node, effect.selected, effect.policy, request.pool);
    assert outcome.reply.granted == effect.selected by {
      NumaGrantInNode(book, request.service, node, effect.selected, effect.policy, request.pool);
    }
  }

  lemma NumaGrantInNode(book: Book, service: string, node: set<nat>, selected: set<nat>, policy: Policy, pool: Pool)
    requires selected <= NumaCandidates(book, service, node, policy, pool)
    ensures Owned(NumaGrant(book, service, node, selected, policy, pool), service) * node == selected
  {
  }

  lemma NumaGrantEntries(book: Book, service: string, node: set<nat>, selected: set<nat>, policy: Policy, pool: Pool)
    requires WellFormed(book) && selected != {} && selected <= NumaCandidates(book, service, node, policy, pool)
    ensures var after := NumaGrant(book, service, node, selected, policy, pool);
            && Lookup(after, service) == Some(Entry((Owned(book, service) - node) + selected,
                                                    (OwnedExplicitly(book, service) - node) + selected, policy, pool))
            && forall n :: n != service ==> Lookup(after, n) == if n in book then Without(book[n], selected) else None
  {
    var after := NumaGrant(book, service, node, selected, policy, pool);
    forall n | n != service ensures Lookup(after, n) == if n in book then Without(book[n], selected) else None {
      if n in book {
        NumaGrantFrame(book, service, node, selected, policy, pool, n);
        DifferenceFacts(book[n].cpus, selected);
      }
    }
  }

  /** A percentage request is the ordinary request for that share of the usable CPUs, rounded up,
      and a release when it asks for nothing. */
  lemma PercentIsCount(service: string, pool: Pool, policy: Option<Policy>, percent: Percent, host: Host, book: Book)
    ensures Execute(AllocatePercent(service, pool, policy, percent), host, book) ==
            Execute(AllocateCores(service, pool, policy,
                                  if percent <= 0 then -1 else (|Usable(host, pool)| * percent + 99) / 100), host, book)
  {
    hide HandleCores, Usable, Eligible, EligibleOf, Configured, ConfiguredOf;
    var request := AllocatePercent(service, pool, policy, percent);
    EligibleIsUsable(request, host);
    if Configured(host, pool).Some? { ConfiguredIsSome(request, host); }
    hide PoolExists;
  }

  /** A release names the policy only of claims that are left in other nodes. */
  lemma ReleasePolicy(request: Request, host: Host, book: Book)
    requires Releases(request) && Execute(request, host, book).Ok?
    ensures var outcome := Execute(request, host, book).value;
            outcome.reply.policy ==
            if request.AllocateNuma? && request.service in outcome.book then Some(outcome.book[request.service].policy) else None
  {
    hide Claimed, ClaimedIn, Subtract, Release, NumaChoice;
  }
}

/** Releases: when they are possible, what they free, and what they undo. */
module ReleaseRequests {
  import opened Wrappers
  import opened Ledger
  import opened Requests
  import opened Guarantees
  import opened Grants

  /** The CPUs that a release gives back: all of the service's, or those in the named node. */
  function Freed(request: Request, host: Host, book: Book): set<nat> {
    if !request.AllocateNuma? then Owned(book, request.service)
    else if host.topology.Some? && request.node in host.topology.value
    then Owned(book, request.service) * host.topology.value[request.node]
    else {}
  }

  predicate SameMetadata(a: Entry, b: Entry) { a.policy == b.policy && a.pool == b.pool }

  /** A release needs its pool to exist, the service not to hold CPUs of the other pool, and the
      node to be known; nothing else. Unreadable online lists, CPUs that are offline or have left
      the pool, and the claims of others never block it. */
  lemma ReleaseSucceeds(request: Request, host: Host, book: Book)
    requires Releases(request)
    ensures Execute(request, host, book).Ok? <==>
            && (request.pool == General ==> host.general.Some?)
            && (request.service in book ==> book[request.service].pool == request.pool)
            && (request.AllocateNuma? ==> host.topology.Some? && request.node in host.topology.value)
  {
    hide Claimed, ClaimedIn, Subtract, Ledger.Release, NumaChoice;
  }

  /** A release frees exactly these CPUs: others keep everything, and the service keeps its
      remaining claims with their explicit marks, policy and pool, or disappears with its metadata. */
  lemma ReleaseFrees(request: Request, host: Host, book: Book)
    requires WellFormed(book) && Releases(request) && Execute(request, host, book).Ok?
    ensures var after, freed := Execute(request, host, book).value.book, Freed(request, host, book);
            && (forall n :: n != request.service ==> Lookup(after, n) == Lookup(book, n))
            && Owned(after, request.service) == Owned(book, request.service) - freed
            && OwnedExplicitly(after, request.service) == OwnedExplicitly(book, request.service) - freed
            && (request.service in after <==> Owned(book, request.service) - freed != {})
            && (request.service in after ==> SameMetadata(after[request.service], book[request.service]))
            && Claimed(after) == Claimed(book) - freed
  {
    hide Execute, Claimed, Subtract, Ledger.Release, WellFormed, Owned, OwnedExplicitly, SameMetadata;
    var service := request.service;
    ReleasedBook(request, host, book);
    if request.AllocateNuma? {
      var node := host.topology.value[request.node];
      SubtractUnions(book, service, node);
      SubtractedOwner(book, service, node);
    } else {
      ReleaseKeeps(book, service);
      ReleasedOwner(book, service);
    }
  }

  lemma ReleasedBook(request: Request, host: Host, book: Book)
    requires Releases(request) && Execute(request, host, book).Ok?
    ensures request.AllocateNuma? ==> host.topology.Some? && request.node in host.topology.value
    ensures Execute(request, host, book).value.book ==
            if request.AllocateNuma? then Subtract(book, {request.service}, host.topology.value[request.node])
            else Ledger.Release(book, request.service)
  {
    hide Claimed, ClaimedIn, Subtract, Ledger.Release, NumaChoice;
  }

  /** The reply counts the freed CPUs that are eligible as available again, and reports no policy
      once nothing is owned. */
  lemma ReleaseReply(request: Request, host: Host, book: Book)
    requires WellFormed(book) && Releases(request) && Execute(request, host, book).Ok?
    ensures var reply := Execute(request, host, book).value.reply;
            var eligible, freed := EligibleOf(request, host), Freed(request, host, book);
            && reply.granted == {} && reply.total == |eligible|
            && reply.remaining == |eligible - Claimed(book)| + |eligible * freed|
            && (!request.AllocateNuma? ==> reply.shared == (eligible - Claimed(book)) + eligible * freed)
            && (Owned(book, request.service) - freed == {} ==> reply.policy == None)
  {
    hide Execute, Freed, WellFormed, Claimed, EligibleOf, Owned, OwnedExplicitly;
    var eligible, freed := EligibleOf(request, host), Freed(request, host, book);
    ReleaseFrees(request, host, book);
    ReplyOfRelease(request, host, book);
    FreedIsClaimed(request, host, book);
    FreedIsFreeAgain(eligible, Claimed(book), freed);
  }

  lemma FreedIsFreeAgain(eligible: set<nat>, claimed: set<nat>, freed: set<nat>)
    requires freed <= claimed
    ensures eligible - (claimed - freed) == (eligible - claimed) + eligible * freed
    ensures |eligible - (claimed - freed)| == |eligible - claimed| + |eligible * freed|
  {
    assert eligible - (claimed - freed) == (eligible - claimed) + eligible * freed;
    assert (eligible - claimed) !! eligible * freed;
  }

  lemma FreedIsClaimed(request: Request, host: Host, book: Book)
    ensures Freed(request, host, book) <= Claimed(book)
  {
  }

  lemma ReplyOfRelease(request: Request, host: Host, book: Book)
    requires Releases(request) && Execute(request, host, book).Ok?
    ensures var outcome, eligible := Execute(request, host, book).value, EligibleOf(request, host);
            && outcome.reply.granted == {} && outcome.reply.total == |eligible|
            && outcome.reply.remaining == |eligible - Claimed(outcome.book)|
            && (!request.AllocateNuma? ==> outcome.reply.shared == eligible - Claimed(outcome.book))
            && (request.service !in outcome.book ==> outcome.reply.policy == None)
  {
    hide Claimed, ClaimedIn, Subtract, Ledger.Release, NumaChoice;
  }

  lemma ReleasedOwner(book: Book, service: string)
    requires WellFormed(book)
    ensures var after, freed := Ledger.Release(book, service), Owned(book, service);
            && (forall n :: n != service ==> Lookup(after, n) == Lookup(book, n))
            && Owned(after, service) == Owned(book, service) - freed
            && OwnedExplicitly(after, service) == OwnedExplicitly(book, service) - freed
            && service !in after && Owned(book, service) - freed == {}
  {
    assert OwnedExplicitly(book, service) <= Owned(book, service);
  }

  lemma SubtractedOwner(book: Book, service: string, node: set<nat>)
    requires WellFormed(book)
    ensures var after, freed := Subtract(book, {service}, node), Owned(book, service) * node;
            && (forall n :: n != service ==> Lookup(after, n) == Lookup(book, n))
            && Owned(after, service) == Owned(book, service) - freed
            && OwnedExplicitly(after, service) == OwnedExplicitly(book, service) - freed
            && (service in after <==> Owned(book, service) - freed != {})
            && (service in after ==> SameMetadata(after[service], book[service]))
  {
    var freed := Owned(book, service) * node;
    assert Owned(book, service) - freed == Owned(book, service) - node;
    assert OwnedExplicitly(book, service) <= Owned(book, service);
    assert OwnedExplicitly(book, service) - freed == OwnedExplicitly(book, service) - node;
    if service in book && book[service].cpus - node == {} {
      assert book[service].explicit - node == {};
    }
  }

  // ---------- Undoing a grant ----------

  /** What a grant hands out, the service then owns. */
  lemma GrantedIsOwned(request: Request, host: Host, book: Book)
    requires WellFormed(book) && !Releases(request) && Execute(request, host, book).Ok?
    ensures var outcome := Execute(request, host, book).value;
            outcome.reply.granted <= Owned(outcome.book, request.service)
  {
    hide Execute, WellFormed, EligibleOf, Claimed, ClaimedByOthers, EffectivePolicy;
    if request.AllocateNuma? {
      NumaReply(request, host, book);
    } else {
      CoresReply(request, host, book);
    }
  }

  /** Ordinary requests and protected ones take nothing from anybody. */
  lemma NothingReclaimed(request: Request, host: Host, book: Book)
    requires WellFormed(book) && !Releases(request) && Execute(request, host, book).Ok?
    requires !request.AllocateNuma? || EffectivePolicy(book, request.service, request.policy) == Some(NonPreemptive)
    ensures Execute(request, host, book).value.reply.granted !! ClaimedByOthers(book, request.service)
  {
    hide Execute, EffectivePolicy;
    GrantedIsOwned(request, host, book);
    ExecuteKeepsWellFormed(request, host, book);
    var outcome := Execute(request, host, book).value;
    forall c | c in ClaimedByOthers(book, request.service) ensures c !in outcome.reply.granted {
      var n :| n in book && n != request.service && c in book[n].cpus;
      OthersFare(request, host, book, n);
    }
  }

  /** Releasing what a newcomer was granted restores the ledger exactly if and only if the grant
      had reclaimed nothing. */
  lemma ReleaseUndoesGrant(grant: Request, release: Request, host: Host, later: Host, book: Book)
    requires WellFormed(book) && grant.service !in book
    requires !Releases(grant) && Execute(grant, host, book).Ok?
    requires Releases(release) && release.service == grant.service
    requires var after := Execute(grant, host, book).value.book;
             Execute(release, later, after).Ok? && Freed(release, later, after) == Owned(after, grant.service)
    ensures Execute(release, later, Execute(grant, host, book).value.book).value.book == book <==>
            Execute(grant, host, book).value.reply.granted !! ClaimedByOthers(book, grant.service)
  {
    hide Execute, Freed, Claimed, WellFormed, ClaimedByOthers;
    var after := Execute(grant, host, book).value.book;
    ExecuteKeepsWellFormed(grant, host, book);
    ReleaseFrees(release, later, after);
    var final := Execute(release, later, after).value.book;
    assert grant.service !in final;
    if Execute(grant, host, book).value.reply.granted !! ClaimedByOthers(book, grant.service) {
      forall n | n in book ensures Lookup(after, n) == Some(book[n]) {
        OthersKeep(grant, host, book, n);
      }
      forall n | n in after && n != grant.service ensures n in book {
        NoNewOwner(grant, host, book, n);
      }
      SameOwners(book, after, final, grant.service);
    } else {
      var victim := LossStays(grant, host, book);
      assert Lookup(final, victim) == Lookup(after, victim);
    }
  }

  lemma LossStays(request: Request, host: Host, book: Book) returns (victim: string)
    requires WellFormed(book) && !Releases(request) && Execute(request, host, book).Ok?
    requires !(Execute(request, host, book).value.reply.granted !! ClaimedByOthers(book, request.service))
    ensures victim in book && victim != request.service
    ensures Lookup(Execute(request, host, book).value.book, victim) != Some(book[victim])
  {
    hide Execute;
    var outcome := Execute(request, host, book).value;
    var c :| c in outcome.reply.granted && c in ClaimedByOthers(book, request.service);
    victim :| victim in book && victim != request.service && c in book[victim].cpus;
    GrantedIsOwned(request, host, book);
    ExecuteKeepsWellFormed(request, host, book);
  }

  lemma SameOwners(book: Book, after: Book, final: Book, service: string)
    requires service !in book && service !in final
    requires forall n :: n != service ==> Lookup(final, n) == Lookup(after, n)
    requires forall n :: n in book ==> Lookup(after, n) == Some(book[n])
    requires forall n :: n in after && n != service ==> n in book
    ensures final == book
  {
    forall n ensures (n in final <==> n in book) && (n in book ==> final[n] == book[n]) {
      if n != service {
        assert Lookup(final, n) == Lookup(after, n);
      }
    }
  }

  lemma OthersKeep(request: Request, host: Host, book: Book, other: string)
    requires WellFormed(book) && Execute(request, host, book).Ok? && !Releases(request) && request.service !in book
    requires Execute(request, host, book).value.reply.granted !! ClaimedByOthers(book, request.service)
    requires other in book
    ensures Lookup(Execute(request, host, book).value.book, other) == Some(book[other])
  {
    hide Execute, WellFormed, EffectivePolicy, Claimed, EligibleOf;
    OthersFare(request, host, book, other);
    var outcome := Execute(request, host, book).value;
    if request.AllocateNuma? {
      NewcomerHoldsGrant(request, host, book);
      ClaimedByOthersMember(book, request.service, other);
    }
  }

  lemma ClaimedByOthersMember(book: Book, service: string, other: string)
    requires other in book && other != service
    ensures book[other].cpus <= ClaimedByOthers(book, service)
  {
  }

  /** All that a newcomer owns explicitly was handed out by the grant. */
  lemma NewcomerHoldsGrant(request: Request, host: Host, book: Book)
    requires WellFormed(book) && request.AllocateNuma? && !Releases(request) && Execute(request, host, book).Ok?
    requires request.service !in book
    ensures var outcome := Execute(request, host, book).value;
            OwnedExplicitly(outcome.book, request.service) <= outcome.reply.granted
  {
    hide Execute, EffectivePolicy, Claimed, EligibleOf, ConfiguredOf, ClaimedIn;
    NumaReply(request, host, book);
    var effect := ExecuteEffect(request, host, book);
    assert effect.GrantedNuma?;
  }

  lemma NoNewOwner(request: Request, host: Host, book: Book, other: string)
    requires WellFormed(book) && Execute(request, host, book).Ok?
    requires other in Execute(request, host, book).value.book && other != request.service
    ensures other in book
  {
    var effect := ExecuteEffect(request, host, book);
    hide Execute, WellFormed, Justified;
  }
}

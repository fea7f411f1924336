/** The CPU ownership ledger as a value: who owns which CPUs, under which policy and pool. */
module Ledger {
  import opened Wrappers

  datatype Policy = Legacy | NonPreemptive

  datatype Pool = Isolated | General

  /** One owner. `explicit` are the CPUs claimed through a NUMA request. */
  datatype Entry = Entry(cpus: set<nat>, explicit: set<nat>, policy: Policy, pool: Pool)

  type Book = map<string, Entry>

  /** No CPU has two owners, no owner is empty, and explicit claims are claims. */
  ghost predicate WellFormed(book: Book) {
    && (forall n :: n in book ==> book[n].cpus != {} && book[n].explicit <= book[n].cpus)
    && (forall n, m :: n in book && m in book && n != m ==> book[n].cpus !! book[m].cpus)
  }

  // ---------- Views ----------

  function Owned(book: Book, owner: string): set<nat> {
    if owner in book then book[owner].cpus else {}
  }

  function OwnedExplicitly(book: Book, owner: string): set<nat> {
    if owner in book then book[owner].explicit else {}
  }

  function Claimed(book: Book): set<nat> {
    set n, c | n in book && c in book[n].cpus :: c
  }

  function ClaimedExplicitly(book: Book): set<nat> {
    set n, c | n in book && c in book[n].explicit :: c
  }

  function ClaimedIn(book: Book, pool: Pool): set<nat> {
    set n, c | n in book && book[n].pool == pool && c in book[n].cpus :: c
  }

  function ClaimedByOthers(book: Book, owner: string): set<nat> {
    set n, c | n in book && n != owner && c in book[n].cpus :: c
  }

  function PolicyOf(book: Book, owner: string): Policy {
    if owner in book then book[owner].policy else Legacy
  }

  function PoolOf(book: Book, owner: string): Pool {
    if owner in book then book[owner].pool else Isolated
  }

  // ---------- Guards ----------

  /** The owner keeps CPUs of another pool. */
  predicate InOtherPool(book: Book, owner: string, pool: Pool) {
    owner in book && book[owner].pool != pool
  }

  /** The policy a request takes effect with; None when it would downgrade protected claims. */
  function EffectivePolicy(book: Book, owner: string, requested: Option<Policy>): Option<Policy> {
    match requested
    case None => Some(PolicyOf(book, owner))
    case Some(policy) =>
      if PolicyOf(book, owner) == NonPreemptive && policy == Legacy then None else Some(policy)
  }

  /** Whether a requester may take `cpus` from an owner. */
  predicate Reclaimable(entry: Entry, cpus: set<nat>, requester: Policy, pool: Pool) {
    entry.pool == pool && requester == Legacy && entry.policy == Legacy && cpus !! entry.explicit
  }

  /** What an owner withholds from a foreign requester: everything, or its explicit claims. */
  function Withheld(entry: Entry, requester: Policy, pool: Pool): set<nat> {
    if entry.pool != pool || requester == NonPreemptive || entry.policy == NonPreemptive
    then entry.cpus else entry.explicit
  }

  function Unavailable(book: Book, service: string, requester: Policy, pool: Pool): set<nat> {
    set n, c | n in book && n != service && c in Withheld(book[n], requester, pool) :: c
  }

  function NumaCandidates(book: Book, service: string, eligible: set<nat>, requester: Policy, pool: Pool): set<nat> {
    eligible - Unavailable(book, service, requester, pool)
  }

  // ---------- Transitions ----------

  /** `cpus` taken away from every owner in `owners`; emptied owners disappear. */
  function Subtract(book: Book, owners: set<string>, cpus: set<nat>): Book {
    map n | n in book && (n in owners ==> book[n].cpus - cpus != {}) ::
      if n in owners then book[n].(cpus := book[n].cpus - cpus, explicit := book[n].explicit - cpus) else book[n]
  }

  /** An ordinary grant replaces everything the service owned. */
  function CountGrant(book: Book, service: string, selected: set<nat>, policy: Policy, pool: Pool): Book {
    book[service := Entry(selected, {}, policy, pool)]
  }

  /** A NUMA grant replaces the service's claims in the node and takes the selection from everyone else. */
  function NumaGrant(
    book: Book, service: string, node: set<nat>, selected: set<nat>, policy: Policy, pool: Pool): Book {
    Subtract(book, book.Keys - {service}, selected)
      [service := Entry((Owned(book, service) - node) + selected,
                        (OwnedExplicitly(book, service) - node) + selected, policy, pool)]
  }

  function Release(book: Book, service: string): Book {
    map n | n in book && n != service :: book[n]
  }

  // ---------- The filter and the guard ----------

  /** A CPU is a candidate exactly when taking it passes the reclamation guard of its holder. */
  lemma CandidateIffReclaimable(book: Book, service: string, eligible: set<nat>, policy: Policy, pool: Pool, cpu: nat)
    requires WellFormed(book) && cpu in eligible
    ensures cpu in NumaCandidates(book, service, eligible, policy, pool) <==>
            forall n :: n in book && n != service && cpu in book[n].cpus ==> Reclaimable(book[n], {cpu}, policy, pool)
  {
    if cpu in Unavailable(book, service, policy, pool) {
      var n :| n in book && n != service && cpu in Withheld(book[n], policy, pool);
      assert cpu in book[n].cpus && !Reclaimable(book[n], {cpu}, policy, pool);
    } else {
      forall n | n in book && n != service && cpu in book[n].cpus
        ensures Reclaimable(book[n], {cpu}, policy, pool)
      {
        assert cpu !in Withheld(book[n], policy, pool);
      }
    }
  }

  /** Any set of candidates passes the guard of every holder at once. */
  lemma CandidatesAreReclaimable(
    book: Book, service: string, eligible: set<nat>, policy: Policy, pool: Pool, taken: set<nat>, owner: string)
    requires WellFormed(book) && owner in book && owner != service
    requires taken <= NumaCandidates(book, service, eligible, policy, pool)
    ensures book[owner].cpus * taken != {} ==> Reclaimable(book[owner], book[owner].cpus * taken, policy, pool)
    ensures taken !! book[owner].explicit
  {
    var entry := book[owner];
    forall c | c in taken ensures c !in Withheld(entry, policy, pool) {
      assert c !in Unavailable(book, service, policy, pool);
    }
    assert taken !! Withheld(entry, policy, pool);
  }

  // ---------- Every transition keeps the book well formed ----------

  lemma SubtractKeeps(book: Book, owners: set<string>, cpus: set<nat>)
    requires WellFormed(book)
    ensures WellFormed(Subtract(book, owners, cpus))
  {
  }

  lemma ReleaseKeeps(book: Book, service: string)
    requires WellFormed(book)
    ensures WellFormed(Release(book, service))
    ensures Claimed(Release(book, service)) == Claimed(book) - Owned(book, service)
  {
    var after := Release(book, service);
    forall c ensures c in Claimed(after) <==> c in Claimed(book) - Owned(book, service) {
      if c in Claimed(book) && c !in Owned(book, service) {
        var n :| n in book && c in book[n].cpus;
        assert n in after && c in after[n].cpus;
      }
      if c in Claimed(after) {
        var n :| n in after && c in after[n].cpus;
        assert n in book && c in book[n].cpus;
      }
    }
  }

  lemma CountGrantKeeps(book: Book, service: string, selected: set<nat>, policy: Policy, pool: Pool)
    requires WellFormed(book) && selected != {} && selected !! ClaimedByOthers(book, service)
    ensures WellFormed(CountGrant(book, service, selected, policy, pool))
  {
    forall n | n in book && n != service ensures book[n].cpus !! selected {
      forall c | c in book[n].cpus ensures c !in selected {
        assert c in ClaimedByOthers(book, service);
      }
    }
  }

  lemma NumaGrantKeeps(book: Book, service: string, node: set<nat>, selected: set<nat>, policy: Policy, pool: Pool)
    requires WellFormed(book) && selected != {}
    ensures WellFormed(NumaGrant(book, service, node, selected, policy, pool))
  {
    SubtractKeeps(book, book.Keys - {service}, selected);
  }

  lemma DifferenceFacts(a: set<nat>, b: set<nat>)
    ensures a - b == {} <==> a <= b
    ensures a * b == {} <==> a - b == a
    ensures a * b == {} <==> a !! b
  {
    assert forall c :: c in a ==> (c in a - b <==> c !in b);
    assert forall c :: c in a ==> (c in a * b <==> c in b);
  }

  // ---------- Frame and conservation of a NUMA grant ----------

  /** What a NUMA grant does to everybody: the requester swaps its claims in the node for the
      selection, and any other owner only loses CPUs that were neither explicit, nor protected,
      nor of another pool, and only to a legacy requester. */
  lemma NumaGrantFrame(
    book: Book, service: string, node: set<nat>, selected: set<nat>, policy: Policy, pool: Pool, other: string)
    requires WellFormed(book) && other in book && other != service
    requires selected != {} && selected <= NumaCandidates(book, service, node, policy, pool)
    ensures var after := NumaGrant(book, service, node, selected, policy, pool);
            && service in after
            && after[service] == Entry((Owned(book, service) - node) + selected,
                                       (OwnedExplicitly(book, service) - node) + selected, policy, pool)
            && Owned(after, other) == book[other].cpus - selected
            && (other in after ==> after[other] == book[other].(cpus := book[other].cpus - selected))
            && (other !in after <==> book[other].cpus <= selected)
            && (Owned(after, other) != book[other].cpus ==>
                 && policy == Legacy && book[other].policy == Legacy && book[other].pool == pool
                 && book[other].cpus * selected !! book[other].explicit)
  {
    CandidatesAreReclaimable(book, service, node, policy, pool, selected, other);
    var entry := book[other];
    assert entry.explicit - selected == entry.explicit;
    assert other in book.Keys - {service};
    DifferenceFacts(entry.cpus, selected);
  }

  /** Nothing leaks: what is claimed afterwards is what was claimed, less the requester's
      own claims in the node, plus the selection. */
  lemma NumaGrantConserves(book: Book, service: string, node: set<nat>, selected: set<nat>, policy: Policy, pool: Pool)
    requires WellFormed(book) && selected != {}
    ensures Claimed(NumaGrant(book, service, node, selected, policy, pool))
         == (Claimed(book) - Owned(book, service) * node) + selected
  {
    var after := NumaGrant(book, service, node, selected, policy, pool);
    forall c | c in Claimed(after) ensures c in (Claimed(book) - Owned(book, service) * node) + selected {
      var n :| n in after && c in after[n].cpus;
      if n != service {
        assert n in book && c in book[n].cpus;
      } else if c !in selected {
        assert service in book && c in book[service].cpus;
      }
    }
    forall c | c in Claimed(book) && c !in Owned(book, service) * node ensures c in Claimed(after) {
      var n :| n in book && c in book[n].cpus;
      if c in selected || n == service {
        assert c in after[service].cpus;
      } else {
        assert c in book[n].cpus - selected && n in book.Keys - {service};
        assert n in after && c in after[n].cpus;
      }
    }
    forall c | c in selected ensures c in Claimed(after) {
      assert service in after && c in after[service].cpus;
    }
  }

  // ---------- The incrementally maintained unions ----------

  lemma ClaimedSplit(book: Book, owner: string)
    ensures Claimed(book) == ClaimedByOthers(book, owner) + Owned(book, owner)
    ensures WellFormed(book) ==> ClaimedByOthers(book, owner) !! Owned(book, owner)
  {
  }

  /** Dropping an owner removes its CPUs from both unions, because nobody else holds them. */
  lemma ReleaseUnions(book: Book, owner: string)
    requires WellFormed(book)
    ensures Claimed(Release(book, owner)) == Claimed(book) - Owned(book, owner)
    ensures ClaimedExplicitly(Release(book, owner)) == ClaimedExplicitly(book) - OwnedExplicitly(book, owner)
  {
    ReleaseKeeps(book, owner);
    var after := Release(book, owner);
    forall c | c in ClaimedExplicitly(book) && c !in OwnedExplicitly(book, owner) ensures c in ClaimedExplicitly(after) {
      var n :| n in book && c in book[n].explicit;
      assert n in after && c in after[n].explicit;
    }
    forall c | c in ClaimedExplicitly(after) ensures c in ClaimedExplicitly(book) && c !in OwnedExplicitly(book, owner) {
      var n :| n in after && c in after[n].explicit;
      assert n in book && c in book[n].explicit && c in book[n].cpus;
    }
  }

  /** Taking CPUs from one owner removes exactly the ones it held from both unions. */
  lemma SubtractUnions(book: Book, owner: string, cpus: set<nat>)
    requires WellFormed(book)
    ensures Claimed(Subtract(book, {owner}, cpus)) == Claimed(book) - Owned(book, owner) * cpus
    ensures ClaimedExplicitly(Subtract(book, {owner}, cpus))
         == ClaimedExplicitly(book) - OwnedExplicitly(book, owner) * cpus
  {
    var after := Subtract(book, {owner}, cpus);
    forall c | c in Claimed(book) && c !in Owned(book, owner) * cpus ensures c in Claimed(after) {
      var n :| n in book && c in book[n].cpus;
      assert n == owner ==> c in book[n].cpus - cpus;
      assert n in after && c in after[n].cpus;
    }
    forall c | c in Claimed(after) ensures c in Claimed(book) && c !in Owned(book, owner) * cpus {
      var n :| n in after && c in after[n].cpus;
      assert n in book && c in book[n].cpus;
    }
    forall c | c in ClaimedExplicitly(book) && c !in OwnedExplicitly(book, owner) * cpus ensures c in ClaimedExplicitly(after) {
      var n :| n in book && c in book[n].explicit;
      assert n == owner ==> c in book[n].cpus - cpus;
      assert n in after && c in after[n].explicit;
    }
    forall c | c in ClaimedExplicitly(after) ensures c in ClaimedExplicitly(book) && c !in OwnedExplicitly(book, owner) * cpus {
      var n :| n in after && c in after[n].explicit;
      assert n in book && c in book[n].explicit && c in book[n].cpus;
    }
  }

  /** Enlarging one owner adds its CPUs to both unions. */
  lemma PutUnions(book: Book, owner: string, entry: Entry)
    requires Owned(book, owner) <= entry.cpus && OwnedExplicitly(book, owner) <= entry.explicit
    ensures Claimed(book[owner := entry]) == Claimed(book) + entry.cpus
    ensures ClaimedExplicitly(book[owner := entry]) == ClaimedExplicitly(book) + entry.explicit
  {
    var after := book[owner := entry];
    forall c | c in Claimed(book) + entry.cpus ensures c in Claimed(after) {
      if c in entry.cpus {
        assert owner in after && c in after[owner].cpus;
      } else {
        var n :| n in book && c in book[n].cpus;
        assert n in after && c in after[n].cpus;
      }
    }
    forall c | c in ClaimedExplicitly(book) + entry.explicit ensures c in ClaimedExplicitly(after) {
      if c in entry.explicit {
        assert owner in after && c in after[owner].explicit;
      } else {
        var n :| n in book && c in book[n].explicit;
        assert n in after && c in after[n].explicit;
      }
    }
  }

  // ---------- Taking from several owners one by one ----------

  /** Only the overlap of an owner with the taken CPUs matters. */
  lemma SubtractOverlap(book: Book, owner: string, cpus: set<nat>)
    requires WellFormed(book) && owner in book
    ensures Subtract(book, {owner}, book[owner].cpus * cpus) == Subtract(book, {owner}, cpus)
  {
    var entry := book[owner];
    assert entry.cpus - entry.cpus * cpus == entry.cpus - cpus;
    assert entry.explicit - entry.cpus * cpus == entry.explicit - cpus;
  }

  lemma SubtractOwn(book: Book, owner: string, cpus: set<nat>)
    requires WellFormed(book)
    ensures Subtract(book, {owner}, cpus * Owned(book, owner)) == Subtract(book, {owner}, cpus)
  {
    if owner in book {
      SubtractOverlap(book, owner, cpus);
      assert cpus * Owned(book, owner) == book[owner].cpus * cpus;
    } else {
      assert Subtract(book, {owner}, cpus * Owned(book, owner)) == Subtract(book, {owner}, cpus);
    }
  }

  lemma SubtractMore(book: Book, done: set<string>, owner: string, cpus: set<nat>)
    requires owner !in done
    ensures Subtract(Subtract(book, done, cpus), {owner}, cpus) == Subtract(book, done + {owner}, cpus)
  {
    var left, right := Subtract(Subtract(book, done, cpus), {owner}, cpus), Subtract(book, done + {owner}, cpus);
    assert left.Keys == right.Keys;
    forall n | n in right ensures left[n] == right[n] {}
  }

  lemma SubtractNothing(book: Book, owner: string, cpus: set<nat>)
    requires WellFormed(book) && Owned(book, owner) * cpus == {}
    ensures Subtract(book, {owner}, cpus) == book
  {
    if owner in book {
      DifferenceFacts(book[owner].cpus, cpus);
      assert forall c :: c in book[owner].explicit && c in cpus ==> c in book[owner].cpus * cpus;
      assert book[owner].explicit - cpus == book[owner].explicit;
    }
  }

  /** The order of the code: own CPUs of the node first, then the victims, then the new claim. */
  lemma NumaGrantInSteps(book: Book, service: string, node: set<nat>, selected: set<nat>, policy: Policy, pool: Pool)
    requires selected != {} || Owned(book, service) - node != {}
    ensures var victims := book.Keys - {service};
            Subtract(Subtract(book, {service}, node), victims, selected)
              [service := Entry((Owned(book, service) - node) + selected,
                                (OwnedExplicitly(book, service) - node) + selected, policy, pool)]
            == NumaGrant(book, service, node, selected, policy, pool)
  {
    var victims := book.Keys - {service};
    var entry := Entry((Owned(book, service) - node) + selected, (OwnedExplicitly(book, service) - node) + selected,
      policy, pool);
    var left := Subtract(Subtract(book, {service}, node), victims, selected)[service := entry];
    var right := NumaGrant(book, service, node, selected, policy, pool);
    assert left.Keys == right.Keys;
    forall n | n in right ensures left[n] == right[n] {}
  }

  lemma SubtractIsPut(book: Book, name: string, cpus: set<nat>)
    requires name in book && book[name].cpus - cpus != {}
    ensures Subtract(book, {name}, cpus)
         == book[name := Entry(book[name].cpus - cpus, book[name].explicit - cpus, book[name].policy, book[name].pool)]
  {
  }

  lemma SubtractIsRelease(book: Book, name: string, cpus: set<nat>)
    requires WellFormed(book) && name in book && book[name].cpus - cpus == {}
    ensures Subtract(book, {name}, cpus) == Release(book, name)
    ensures book[name].cpus * cpus == book[name].cpus && book[name].explicit * cpus == book[name].explicit
    ensures book[name].explicit - cpus == {}
  {
    DifferenceFacts(book[name].cpus, cpus);
    assert book[name].explicit <= cpus;
  }

  lemma PutKeeps(book: Book, name: string, entry: Entry)
    requires WellFormed(book) && entry.cpus != {} && entry.explicit <= entry.cpus
    requires entry.cpus !! ClaimedByOthers(book, name)
    ensures WellFormed(book[name := entry])
  {
    forall n | n in book && n != name ensures book[n].cpus !! entry.cpus {
      forall c | c in book[n].cpus ensures c !in entry.cpus {
        assert c in ClaimedByOthers(book, name);
      }
    }
  }
}

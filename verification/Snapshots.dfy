/** The persisted form of the ledger: four string-keyed maps holding range strings, with
    sparse policy and pool maps, and the ledger they stand for. */
module Snapshots {
  import opened Codec
  import opened Ledger

  datatype Snapshot = Snapshot(
    allocations: map<string, string>,
    explicitAllocations: map<string, string>,
    preemptionPolicies: map<string, Policy>,
    allocationPools: map<string, Pool>)

  /** What a stored range string denotes; stored strings always parse. */
  function Cpus(text: string): set<nat> {
    match ParseCpuRanges(text) case Some(cpus) => cpus case None => {}
  }

  predicate Parses(text: string) { ParseCpuRanges(text).Some? }

  lemma CpusOfPrint(cpus: set<nat>)
    ensures Parses(Print(cpus)) && Cpus(Print(cpus)) == cpus
  {
    RoundTrip(cpus);
  }

  /** A missing policy means legacy, a missing pool means isolated. */
  function StoredPolicy(s: Snapshot, name: string): Policy {
    if name in s.preemptionPolicies then s.preemptionPolicies[name] else Legacy
  }

  function StoredPool(s: Snapshot, name: string): Pool {
    if name in s.allocationPools then s.allocationPools[name] else Isolated
  }

  function StoredExplicit(s: Snapshot, name: string): set<nat> {
    if name in s.explicitAllocations then Cpus(s.explicitAllocations[name]) else {}
  }

  function Decode(s: Snapshot): Book {
    map n | n in s.allocations :: Entry(Cpus(s.allocations[n]), StoredExplicit(s, n), StoredPolicy(s, n), StoredPool(s, n))
  }

  /** State saved before policies or pools existed: a claim without a stored policy is legacy, one
      without a stored pool is isolated, and stored ones are taken as they are. */
  lemma LoadingDefaults(s: Snapshot, name: string)
    requires name in s.allocations
    ensures name in Decode(s)
    ensures name !in s.preemptionPolicies ==> Decode(s)[name].policy == Legacy
    ensures name in s.preemptionPolicies ==> Decode(s)[name].policy == s.preemptionPolicies[name]
    ensures name !in s.allocationPools ==> Decode(s)[name].pool == Isolated
    ensures name in s.allocationPools ==> Decode(s)[name].pool == s.allocationPools[name]
    ensures name !in s.explicitAllocations ==> Decode(s)[name].explicit == {}
  {
  }

  /** What loading checks. */
  ghost predicate Loadable(s: Snapshot) {
    && s.preemptionPolicies.Keys <= s.allocations.Keys
    && s.allocationPools.Keys <= s.allocations.Keys
    && (forall n :: n in s.allocations ==> Parses(s.allocations[n]))
    && (forall n :: n in s.explicitAllocations ==> Parses(s.explicitAllocations[n]))
  }

  /** Loadable, and the ledger it stands for is well formed. */
  ghost predicate Consistent(s: Snapshot) {
    && Loadable(s)
    && s.explicitAllocations.Keys <= s.allocations.Keys
    && (forall n :: n in s.explicitAllocations ==> StoredExplicit(s, n) != {})
    && WellFormed(Decode(s))
  }

  // ---------- The effect of the field updates ----------

  function Dropped(s: Snapshot, name: string): Snapshot {
    Snapshot(s.allocations - {name}, s.explicitAllocations - {name}, s.preemptionPolicies - {name}, s.allocationPools - {name})
  }

  function WithClaims(s: Snapshot, name: string, cpus: set<nat>, explicit: set<nat>): Snapshot {
    s.(allocations := s.allocations[name := Print(cpus)],
       explicitAllocations := if explicit == {} then s.explicitAllocations - {name}
                              else s.explicitAllocations[name := Print(explicit)])
  }

  function WithMetadata(s: Snapshot, name: string, policy: Policy, pool: Pool): Snapshot {
    s.(preemptionPolicies := s.preemptionPolicies[name := policy], allocationPools := s.allocationPools[name := pool])
  }

  lemma DecodeDropped(s: Snapshot, name: string)
    ensures Decode(Dropped(s, name)) == Release(Decode(s), name)
  {
    hide Cpus;
    var left, right := Decode(Dropped(s, name)), Release(Decode(s), name);
    assert left.Keys == right.Keys;
    forall n | n in right ensures left[n] == right[n] {}
  }

  lemma DecodeWithClaims(s: Snapshot, name: string, cpus: set<nat>, explicit: set<nat>)
    ensures Decode(WithClaims(s, name, cpus, explicit))
         == Decode(s)[name := Entry(cpus, explicit, StoredPolicy(s, name), StoredPool(s, name))]
  {
    CpusOfPrint(cpus);
    CpusOfPrint(explicit);
    hide Cpus, Parses, Print;
    var left := Decode(WithClaims(s, name, cpus, explicit));
    var right := Decode(s)[name := Entry(cpus, explicit, StoredPolicy(s, name), StoredPool(s, name))];
    assert left.Keys == right.Keys;
    forall n | n in right ensures left[n] == right[n] {}
  }

  lemma DecodeWithMetadata(s: Snapshot, name: string, policy: Policy, pool: Pool)
    requires name in s.allocations
    ensures Decode(WithMetadata(s, name, policy, pool))
         == Decode(s)[name := Decode(s)[name].(policy := policy, pool := pool)]
  {
    hide Cpus;
    var left := Decode(WithMetadata(s, name, policy, pool));
    var right := Decode(s)[name := Decode(s)[name].(policy := policy, pool := pool)];
    assert left.Keys == right.Keys;
    forall n | n in right ensures left[n] == right[n] {}
  }

  lemma DroppedReleases(s: Snapshot, name: string)
    requires Consistent(s)
    ensures Decode(Dropped(s, name)) == Release(Decode(s), name)
    ensures Consistent(Dropped(s, name))
  {
    ReleaseKeeps(Decode(s), name);
    DecodeDropped(s, name);
    hide Cpus, Parses, WellFormed, Decode, Release;
  }

  lemma WithClaimsPuts(s: Snapshot, name: string, cpus: set<nat>, explicit: set<nat>)
    requires Consistent(s)
    ensures Decode(WithClaims(s, name, cpus, explicit))
         == Decode(s)[name := Entry(cpus, explicit, StoredPolicy(s, name), StoredPool(s, name))]
    ensures WellFormed(Decode(WithClaims(s, name, cpus, explicit))) ==> Consistent(WithClaims(s, name, cpus, explicit))
  {
    DecodeWithClaims(s, name, cpus, explicit);
    CpusOfPrint(cpus);
    CpusOfPrint(explicit);
    hide Cpus, Parses, Print, WellFormed, Decode;
  }

  lemma WithMetadataPuts(s: Snapshot, name: string, policy: Policy, pool: Pool)
    requires Consistent(s) && name in s.allocations
    ensures Decode(WithMetadata(s, name, policy, pool))
         == Decode(s)[name := Decode(s)[name].(policy := policy, pool := pool)]
    ensures Consistent(WithMetadata(s, name, policy, pool))
  {
    hide Cpus, Parses, WellFormed;
    assert name in Decode(s);
    hide Decode;
    MetadataKeeps(Decode(s), name, policy, pool);
    DecodeWithMetadata(s, name, policy, pool);
    assert forall n :: n in s.explicitAllocations ==> StoredExplicit(WithMetadata(s, name, policy, pool), n) == StoredExplicit(s, n);
  }

  lemma MetadataKeeps(book: Book, name: string, policy: Policy, pool: Pool)
    requires WellFormed(book) && name in book
    ensures WellFormed(book[name := book[name].(policy := policy, pool := pool)])
  {
  }

  // ---------- The stored maps together with the two caches ----------

  function StoredClaims(s: Snapshot, name: string): set<nat> {
    if name in s.allocations then Cpus(s.allocations[name]) else {}
  }

  /** What ties the six fields together. */
  ghost predicate Fields(s: Snapshot, claimed: set<nat>, explicit: set<nat>) {
    Consistent(s) && claimed == Claimed(Decode(s)) && explicit == ClaimedExplicitly(Decode(s))
  }

  lemma StoredIsOwned(s: Snapshot, name: string)
    requires Consistent(s)
    ensures StoredClaims(s, name) == Owned(Decode(s), name)
    ensures StoredExplicit(s, name) == OwnedExplicitly(Decode(s), name)
    ensures name in s.allocations <==> name in Decode(s)
    ensures name in Decode(s) ==> Decode(s)[name].policy == StoredPolicy(s, name) && Decode(s)[name].pool == StoredPool(s, name)
  {
    hide Cpus, Parses, WellFormed;
  }

  lemma FieldsOwned(s: Snapshot, claimed: set<nat>, explicit: set<nat>, name: string)
    requires Fields(s, claimed, explicit)
    ensures StoredClaims(s, name) == Owned(Decode(s), name)
    ensures StoredExplicit(s, name) == OwnedExplicitly(Decode(s), name)
    ensures name in s.allocations <==> name in Decode(s)
    ensures name in s.explicitAllocations <==> StoredExplicit(s, name) != {}
    ensures WellFormed(Decode(s))
  {
    StoredIsOwned(s, name);
    hide WellFormed, Decode, Cpus;
  }

  lemma DropKeepsFields(s: Snapshot, claimed: set<nat>, explicit: set<nat>, name: string)
    requires Fields(s, claimed, explicit)
    ensures Fields(Dropped(s, name), claimed - StoredClaims(s, name), explicit - StoredExplicit(s, name))
    ensures Decode(Dropped(s, name)) == Release(Decode(s), name)
  {
    StoredIsOwned(s, name);
    ReleaseUnions(Decode(s), name);
    DroppedReleases(s, name);
    hide Consistent, Decode, Release, Dropped, Claimed, ClaimedExplicitly;
  }

  /** `name` loses `cpus` but keeps some claims. */
  lemma ShrinkKeepsFields(s: Snapshot, claimed: set<nat>, explicit: set<nat>, name: string, cpus: set<nat>)
    requires Fields(s, claimed, explicit) && StoredClaims(s, name) - cpus != {}
    ensures var after := WithClaims(s, name, StoredClaims(s, name) - cpus, StoredExplicit(s, name) - cpus);
            && Fields(after, claimed - StoredClaims(s, name) * cpus, explicit - StoredExplicit(s, name) * cpus)
            && Decode(after) == Subtract(Decode(s), {name}, cpus)
  {
    var book := Decode(s);
    assert WellFormed(book);
    StoredIsOwned(s, name);
    hide Consistent, WellFormed, Decode, StoredClaims, StoredExplicit, WithClaims, Claimed, ClaimedExplicitly, Subtract;
    assert name in book;
    SubtractUnions(book, name, cpus);
    SubtractKeeps(book, {name}, cpus);
    SubtractIsPut(book, name, cpus);
    WithClaimsPuts(s, name, StoredClaims(s, name) - cpus, StoredExplicit(s, name) - cpus);
  }

  /** `name` loses all its claims to `cpus` and disappears. */
  lemma VanishKeepsFields(s: Snapshot, claimed: set<nat>, explicit: set<nat>, name: string, cpus: set<nat>)
    requires Fields(s, claimed, explicit) && StoredClaims(s, name) - cpus == {} && name in s.allocations
    ensures Fields(Dropped(s, name), claimed - StoredClaims(s, name) * cpus, explicit - StoredExplicit(s, name) * cpus)
    ensures Decode(Dropped(s, name)) == Subtract(Decode(s), {name}, cpus)
    ensures StoredExplicit(s, name) - cpus == {}
  {
    var book := Decode(s);
    assert WellFormed(book);
    StoredIsOwned(s, name);
    DropKeepsFields(s, claimed, explicit, name);
    hide Fields, Consistent, WellFormed, Decode, StoredClaims, StoredExplicit, Dropped, Claimed, ClaimedExplicitly,
      Subtract, Release;
    SubtractIsRelease(book, name, cpus);
  }

  /** `name` gets a claim that includes what it still holds, with policy and pool. */
  lemma GrowKeepsFields(
    s: Snapshot, claimed: set<nat>, explicit: set<nat>, name: string, cpus: set<nat>, marked: set<nat>,
    policy: Policy, pool: Pool)
    requires Fields(s, claimed, explicit) && cpus != {} && marked <= cpus
    requires StoredClaims(s, name) <= cpus && StoredExplicit(s, name) <= marked
    requires cpus !! ClaimedByOthers(Decode(s), name)
    ensures var after := WithMetadata(WithClaims(s, name, cpus, marked), name, policy, pool);
            && Fields(after, claimed + cpus, explicit + marked)
            && Decode(after) == Decode(s)[name := Entry(cpus, marked, policy, pool)]
  {
    var book := Decode(s);
    assert WellFormed(book);
    StoredIsOwned(s, name);
    var first := Entry(cpus, marked, StoredPolicy(s, name), StoredPool(s, name));
    var middle := WithClaims(s, name, cpus, marked);
    assert name in middle.allocations;
    hide Consistent, WellFormed, Decode, StoredClaims, StoredExplicit, WithClaims, WithMetadata, Claimed,
      ClaimedExplicitly, ClaimedByOthers;
    WithClaimsPuts(s, name, cpus, marked);
    PutKeeps(book, name, first);
    WithMetadataPuts(middle, name, policy, pool);
    PutUnions(book, name, Entry(cpus, marked, policy, pool));
    PutTwice(book, name, first, policy, pool);
  }

  lemma PutTwice(book: Book, name: string, first: Entry, policy: Policy, pool: Pool)
    ensures var once := book[name := first];
            once[name := once[name].(policy := policy, pool := pool)] == book[name := Entry(first.cpus, first.explicit, policy, pool)]
  {
  }
}

/** list_allocations: one pool's owners and totals, read from one snapshot of the ledger. */
module Listings {
  import opened Wrappers
  import opened Codec
  import opened SortedSets
  import opened Ledger
  import opened Requests
  import opened Conditions
  import opened Snapshots
  import DB = AllocationsDB

  datatype Owner = Owner(pool: Pool, cores: string, count: nat, isExplicit: bool, policy: Policy)

  datatype Listing = Listing(
    owners: map<string, Owner>, claimed: nat, available: nat, remaining: nat,
    configured: string, eligible: string, unavailable: string)

  /** What is listed of one owner: its pool, the number of its CPUs, whether any of them is an
      explicit claim, and its policy. */
  ghost predicate ListedAs(entry: Entry, owner: Owner) {
    && owner.pool == entry.pool && owner.policy == entry.policy
    && owner.count == |entry.cpus|
    && (owner.isExplicit <==> exists cpu :: cpu in entry.explicit)
  }

  ghost function OwnersIn(book: Book, pool: Pool): set<string> {
    set n | n in book && book[n].pool == pool
  }

  // ---------- The two methods ----------

  /** `get_all_allocations`, read off the stored strings. */
  method AllAllocations(db: DB.AllocationsDB) returns (owners: map<string, Owner>)
    requires db.Valid()
    ensures owners.Keys == db.Book().Keys
    ensures forall n :: n in owners ==> ListedAs(db.Book()[n], owners[n])
    ensures forall n :: n in owners ==> ParseCpuRanges(owners[n].cores) == Some(db.Book()[n].cpus)
  {
    hide Print, ParseCpuRanges, WellFormed;
    owners := map n | n in db.allocations ::
      Owner(db.ServicePool(n), db.allocations[n], |Cpus(db.allocations[n])|, n in db.explicitAllocations,
            db.Policy(n, None).value);
  }

  function UnionOf(owners: map<string, Owner>): set<nat> {
    set n, c | n in owners && c in Cpus(owners[n].cores) :: c
  }

  lemma UnionsOfOwners(book: Book, all: map<string, Owner>, owners: map<string, Owner>, pool: Pool)
    requires all.Keys == book.Keys && owners == map n | n in all && all[n].pool == pool :: all[n]
    requires forall n :: n in all ==> all[n].pool == book[n].pool && ParseCpuRanges(all[n].cores) == Some(book[n].cpus)
    ensures UnionOf(all) == Claimed(book) && UnionOf(owners) == ClaimedIn(book, pool)
    ensures owners.Keys == OwnersIn(book, pool)
  {
    hide ParseCpuRanges;
    assert forall n :: n in book ==> n in all && Cpus(all[n].cores) == book[n].cpus;
    assert forall n :: n in book && book[n].pool == pool ==> n in owners && owners[n] == all[n];
  }

  lemma ListedPools(book: Book, all: map<string, Owner>)
    requires all.Keys == book.Keys && forall n :: n in all ==> ListedAs(book[n], all[n])
    ensures forall n :: n in all ==> all[n].pool == book[n].pool
  {
  }

  /** `handle_list_allocations`: the pool must exist; all owners are read once, then filtered and
      counted. Available are the CPUs both in the pool and online, none when the online list
      cannot be read; unavailable are the owned ones that are not. */
  method ListAllocations(db: DB.AllocationsDB, pool: Pool, host: Host) returns (r: Result<Listing, Error>)
    requires db.Valid()
    ensures r.Err? <==> !PoolExists(host, pool)
    ensures r.Err? ==> r.error == PoolNotConfigured
    ensures r.Ok? ==> r.value.owners.Keys == OwnersIn(db.Book(), pool)
    ensures r.Ok? ==> forall n :: n in r.value.owners ==>
              ParseCpuRanges(r.value.owners[n].cores) == Some(db.Book()[n].cpus)
    ensures r.Ok? ==> forall n :: n in r.value.owners ==> ListedAs(db.Book()[n], r.value.owners[n])
    ensures r.Ok? ==> r.value.claimed == |ClaimedIn(db.Book(), pool)|
    ensures r.Ok? ==> r.value.available == |Usable(host, pool)|
    ensures r.Ok? ==> r.value.remaining == |Usable(host, pool) - Claimed(db.Book())|
    ensures r.Ok? ==> ParseCpuRanges(r.value.configured) == Some(if pool == Isolated then host.isolated else host.general.value)
    ensures r.Ok? ==> ParseCpuRanges(r.value.eligible) == Some(Usable(host, pool))
    ensures r.Ok? ==> ParseCpuRanges(r.value.unavailable) == Some(ClaimedIn(db.Book(), pool) - Usable(host, pool))
  {
    hide Print, ParseCpuRanges, Decode, Fields, Claimed, ClaimedIn, ListedAs, UnionOf, OwnersIn, Usable;
    var configured := Configured(host, pool);
    if configured.None? {
      return Err(PoolNotConfigured);
    }
    var eligible := Eligible(configured.value, host.online, true).value;
    ConfiguredAndOnline(host, pool);
    var all := AllAllocations(db);
    ghost var book := db.Book();
    var owners := map n | n in all && all[n].pool == pool :: all[n];
    var allOwned, owned := UnionOf(all), UnionOf(owners);
    assert forall n :: n in all ==> all[n].pool == book[n].pool by { ListedPools(book, all); }
    UnionsOfOwners(book, all, owners, pool);
    RoundTrip(configured.value);
    RoundTrip(eligible);
    RoundTrip(owned - eligible);
    r := Ok(Listing(owners, |owned|, |eligible|, |eligible - allOwned|, Print(configured.value), Print(eligible),
      Print(owned - eligible)));
  }

  lemma ConfiguredAndOnline(host: Host, pool: Pool)
    requires Configured(host, pool).Some?
    ensures Eligible(Configured(host, pool).value, host.online, true) == Some(Usable(host, pool))
  {
    if host.online.Some? {
      assert Configured(host, pool).value * host.online.value == Usable(host, pool);
    }
  }

  // ---------- The totals add up ----------

  /** The sum of the owners' counts in one pool. */
  ghost function CountsIn(book: Book, pool: Pool): nat {
    if book == map[] then 0 else
      var n :| n in book;
      (if book[n].pool == pool then |book[n].cpus| else 0) + CountsIn(book - {n}, pool)
  }

  lemma ClaimedInSplit(book: Book, name: string, pool: Pool)
    requires WellFormed(book) && name in book
    ensures var own := if book[name].pool == pool then book[name].cpus else {};
            && WellFormed(book - {name}) && own !! ClaimedIn(book - {name}, pool)
            && ClaimedIn(book, pool) == own + ClaimedIn(book - {name}, pool)
  {
    var own := if book[name].pool == pool then book[name].cpus else {};
    forall c | c in ClaimedIn(book, pool) ensures c in own + ClaimedIn(book - {name}, pool) {
      var n :| n in book && book[n].pool == pool && c in book[n].cpus;
      if n == name {
        assert c in own;
      } else {
        assert n in book - {name} && (book - {name})[n] == book[n];
      }
    }
  }

  /** The listed counts of a pool add up to the listed total, because no CPU is counted twice. */
  lemma {:induction false} CountsAreClaims(book: Book, pool: Pool)
    requires WellFormed(book)
    ensures CountsIn(book, pool) == |ClaimedIn(book, pool)|
  {
    if book == map[] {
      assert ClaimedIn(book, pool) == {};
    } else {
      var n :| n in book
        && CountsIn(book, pool) == (if book[n].pool == pool then |book[n].cpus| else 0) + CountsIn(book - {n}, pool);
      ClaimedInSplit(book, n, pool);
      hide WellFormed, ClaimedIn;
      CountsAreClaims(book - {n}, pool);
      DisjointSize(if book[n].pool == pool then book[n].cpus else {}, ClaimedIn(book - {n}, pool));
    }
  }

  /** The two listings of one ledger divide all claims between them, and within a listing the
      eligible CPUs are either claimed by somebody or remaining. */
  lemma ListingsPartition(book: Book, pool: Pool, eligible: set<nat>)
    requires WellFormed(book)
    ensures |ClaimedIn(book, Isolated)| + |ClaimedIn(book, General)| == |Claimed(book)|
    ensures |eligible - Claimed(book)| + |eligible * Claimed(book)| == |eligible|
    ensures |ClaimedIn(book, pool) - eligible| + |ClaimedIn(book, pool) * eligible| == |ClaimedIn(book, pool)|
  {
    PoolsPartition(book);
    hide WellFormed, Claimed, ClaimedIn;
    DisjointSize(ClaimedIn(book, Isolated), ClaimedIn(book, General));
    SplitSize(eligible, Claimed(book));
    SplitSize(ClaimedIn(book, pool), eligible);
  }

  lemma PoolsPartition(book: Book)
    requires WellFormed(book)
    ensures ClaimedIn(book, Isolated) !! ClaimedIn(book, General)
    ensures Claimed(book) == ClaimedIn(book, Isolated) + ClaimedIn(book, General)
  {
  }
}

/** The hugepage records of hugepages_db.py, the overlay of memory_manager.py and the capacity
    check of daemon_handler.py. */
module Hugepages {
  import opened Wrappers

  datatype Record = Record(node: nat, size: nat, count: int)

  /** Persisted form: a list of records per service. */
  type Records = map<string, seq<Record>>

  predicate Matches(r: Record, node: nat, size: nat) { r.node == node && r.size == size }

  function Without(entries: seq<Record>, node: nat, size: nat): seq<Record> {
    if entries == [] then []
    else if Matches(entries[0], node, size) then Without(entries[1..], node, size)
    else [entries[0]] + Without(entries[1..], node, size)
  }

  function EntriesOf(records: Records, service: string): seq<Record> {
    if service in records then records[service] else []
  }

  /** `upsert_allocation`: the record of the key is replaced and moves to the end of its list. */
  function Upsert(records: Records, service: string, node: nat, size: nat, count: int): Records {
    records[service := Without(EntriesOf(records, service), node, size) + [Record(node, size, count)]]
  }

  /** `remove_allocation_for_key`: emptied services disappear. */
  function Remove(records: Records, service: string, node: nat, size: nat): Records {
    var entries := EntriesOf(records, service);
    var retained := Without(entries, node, size);
    if |retained| == |entries| then records
    else if retained != [] then records[service := retained]
    else map s | s in records && s != service :: records[s]
  }

  // ---------- The list refines a map keyed by service, node and size ----------

  /** The first record of a key, which is the one the capacity check reads. */
  function First(entries: seq<Record>, node: nat, size: nat): Option<int> {
    if entries == [] then None
    else if Matches(entries[0], node, size) then Some(entries[0].count)
    else First(entries[1..], node, size)
  }

  function Lookup(records: Records, service: string, node: nat, size: nat): Option<int> {
    First(EntriesOf(records, service), node, size)
  }

  lemma {:induction false} FirstOfWithout(entries: seq<Record>, node: nat, size: nat, n: nat, z: nat)
    ensures First(Without(entries, node, size), n, z) == if n == node && z == size then None else First(entries, n, z)
    ensures |Without(entries, node, size)| <= |entries|
    ensures |Without(entries, node, size)| == |entries| ==> Without(entries, node, size) == entries
    ensures First(entries, node, size).None? <==> |Without(entries, node, size)| == |entries|
  {
    if entries != [] {
      FirstOfWithout(entries[1..], node, size, n, z);
      assert entries == [entries[0]] + entries[1..];
    }
  }

  lemma {:induction false} FirstOfAppend(entries: seq<Record>, last: Record, n: nat, z: nat)
    ensures First(entries + [last], n, z) ==
            match First(entries, n, z) case Some(c) => Some(c) case None => if Matches(last, n, z) then Some(last.count) else None
  {
    if entries != [] {
      assert (entries + [last])[1..] == entries[1..] + [last];
      FirstOfAppend(entries[1..], last, n, z);
    }
  }

  /** Upserting sets one key and no other. */
  lemma UpsertIsMapUpdate(
    records: Records, service: string, node: nat, size: nat, count: int, s: string, n: nat, z: nat)
    ensures Lookup(Upsert(records, service, node, size, count), s, n, z) ==
            if s == service && n == node && z == size then Some(count) else Lookup(records, s, n, z)
  {
    if s == service {
      FirstOfWithout(EntriesOf(records, service), node, size, n, z);
      FirstOfAppend(Without(EntriesOf(records, service), node, size), Record(node, size, count), n, z);
    }
  }

  /** Removing clears one key and no other, and changes something exactly when the key was there. */
  lemma RemoveIsMapRemoval(records: Records, service: string, node: nat, size: nat, s: string, n: nat, z: nat)
    ensures Lookup(Remove(records, service, node, size), s, n, z) ==
            if s == service && n == node && z == size then None else Lookup(records, s, n, z)
    ensures Remove(records, service, node, size) == records <==> Lookup(records, service, node, size).None?
  {
    var entries := EntriesOf(records, service);
    FirstOfWithout(entries, node, size, n, z);
    if |Without(entries, node, size)| < |entries| {
      assert Remove(records, service, node, size) != records by {
        var after := Remove(records, service, node, size);
        assert service !in after || after[service] == Without(entries, node, size);
      }
    }
  }

  // ---------- Tracked totals ----------

  function SumEntries(entries: seq<Record>, node: nat, size: nat): int {
    if entries == [] then 0
    else (if Matches(entries[0], node, size) then entries[0].count else 0) + SumEntries(entries[1..], node, size)
  }

  /** Everything recorded for one node and size, over all services. */
  ghost function Tracked(records: Records, node: nat, size: nat): int {
    if records == map[] then 0 else
      var s :| s in records;
      SumEntries(records[s], node, size) + Tracked(records - {s}, node, size)
  }

  lemma {:induction false} TrackedSplit(records: Records, service: string, node: nat, size: nat)
    requires service in records
    ensures Tracked(records, node, size)
         == SumEntries(records[service], node, size) + Tracked(records - {service}, node, size)
    decreases records
  {
    var s :| s in records
      && Tracked(records, node, size) == SumEntries(records[s], node, size) + Tracked(records - {s}, node, size);
    if s != service {
      TrackedSplit(records - {s}, service, node, size);
      TrackedSplit(records - {service}, s, node, size);
      assert records - {s} - {service} == records - {service} - {s};
    }
  }

  function Existing(records: Records, service: string, node: nat, size: nat): int {
    match Lookup(records, service, node, size) case Some(count) => count case None => 0
  }

  /** One record per key, as upserting keeps it, and only positive counts. */
  ghost predicate Keyed(records: Records) {
    forall s :: s in records ==> KeyedEntries(records[s])
  }

  ghost predicate KeyedEntries(entries: seq<Record>) {
    && (forall i :: 0 <= i < |entries| ==> entries[i].count > 0)
    && (forall i, j :: 0 <= i < j < |entries| ==> !Matches(entries[j], entries[i].node, entries[i].size))
  }

  lemma {:induction false} SumOfWithout(entries: seq<Record>, node: nat, size: nat, n: nat, z: nat)
    ensures SumEntries(Without(entries, node, size), n, z) == if n == node && z == size then 0 else SumEntries(entries, n, z)
  {
    if entries != [] {
      SumOfWithout(entries[1..], node, size, n, z);
    }
  }

  lemma {:induction false} SumOfAppend(entries: seq<Record>, last: Record, n: nat, z: nat)
    ensures SumEntries(entries + [last], n, z) == SumEntries(entries, n, z) + if Matches(last, n, z) then last.count else 0
  {
    if entries != [] {
      assert (entries + [last])[1..] == entries[1..] + [last];
      SumOfAppend(entries[1..], last, n, z);
    }
  }

  /** With one record per key, a service's share of the tracked total is its record. */
  lemma {:induction false} SumIsFirst(entries: seq<Record>, node: nat, size: nat)
    requires KeyedEntries(entries)
    ensures SumEntries(entries, node, size) == match First(entries, node, size) case Some(c) => c case None => 0
    ensures SumEntries(entries, node, size) >= 0
  {
    if entries != [] {
      assert KeyedEntries(entries[1..]);
      SumIsFirst(entries[1..], node, size);
      if Matches(entries[0], node, size) {
        assert forall j :: 0 < j < |entries| ==> !Matches(entries[j], node, size);
        NoneMatch(entries[1..], node, size);
      }
    }
  }

  lemma {:induction false} NoneMatch(entries: seq<Record>, node: nat, size: nat)
    requires forall j :: 0 <= j < |entries| ==> !Matches(entries[j], node, size)
    ensures SumEntries(entries, node, size) == 0
  {
    if entries != [] {
      NoneMatch(entries[1..], node, size);
    }
  }

  lemma {:induction false} WithoutMembers(entries: seq<Record>, node: nat, size: nat)
    ensures forall r :: r in Without(entries, node, size) ==> r in entries && !Matches(r, node, size)
  {
    if entries != [] {
      WithoutMembers(entries[1..], node, size);
    }
  }

  lemma KeyedCons(first: Record, rest: seq<Record>)
    requires KeyedEntries(rest) && first.count > 0
    requires forall r :: r in rest ==> !Matches(r, first.node, first.size)
    ensures KeyedEntries([first] + rest)
  {
    assert forall j :: 0 <= j < |rest| ==> rest[j] in rest;
  }

  lemma KeyedHead(entries: seq<Record>)
    requires KeyedEntries(entries) && entries != []
    ensures KeyedEntries(entries[1..]) && entries[0].count > 0
    ensures forall r :: r in entries[1..] ==> !Matches(r, entries[0].node, entries[0].size)
  {
  }

  lemma {:induction false} WithoutKeeps(entries: seq<Record>, node: nat, size: nat)
    requires KeyedEntries(entries)
    ensures KeyedEntries(Without(entries, node, size))
    ensures forall r :: r in Without(entries, node, size) ==> r in entries && !Matches(r, node, size)
  {
    WithoutMembers(entries, node, size);
    hide KeyedEntries, Matches;
    if entries == [] {
      assert Without(entries, node, size) == entries;
    } else {
      KeyedHead(entries);
      WithoutKeeps(entries[1..], node, size);
      WithoutMembers(entries[1..], node, size);
      if !Matches(entries[0], node, size) {
        KeyedCons(entries[0], Without(entries[1..], node, size));
      }
    }
  }

  lemma UpsertKeeps(records: Records, service: string, node: nat, size: nat, count: int)
    requires Keyed(records) && count > 0
    ensures Keyed(Upsert(records, service, node, size, count))
  {
    var entries := EntriesOf(records, service);
    WithoutKeeps(entries, node, size);
    var kept := Without(entries, node, size);
    forall i | 0 <= i < |kept| ensures !Matches(Record(node, size, count), kept[i].node, kept[i].size) {
      assert kept[i] in kept;
    }
  }

  lemma RemoveKeeps(records: Records, service: string, node: nat, size: nat)
    requires Keyed(records)
    ensures Keyed(Remove(records, service, node, size))
  {
    WithoutKeeps(EntriesOf(records, service), node, size);
  }

  lemma TrackedOf(records: Records, service: string, n: nat, z: nat)
    ensures Tracked(records, n, z) == SumEntries(EntriesOf(records, service), n, z) + Tracked(records - {service}, n, z)
  {
    if service in records {
      TrackedSplit(records, service, n, z);
    } else {
      assert records - {service} == records;
    }
  }

  /** An upsert moves the tracked total of its node and size by the difference, and no other. */
  lemma UpsertTracked(records: Records, service: string, node: nat, size: nat, count: int, n: nat, z: nat)
    requires Keyed(records)
    ensures Tracked(Upsert(records, service, node, size, count), n, z) ==
            Tracked(records, n, z) + if n == node && z == size then count - Existing(records, service, node, size) else 0
  {
    var entries := EntriesOf(records, service);
    var after := Upsert(records, service, node, size, count);
    TrackedOf(records, service, n, z);
    TrackedOf(after, service, n, z);
    assert after - {service} == records - {service};
    SumOfWithout(entries, node, size, n, z);
    SumOfAppend(Without(entries, node, size), Record(node, size, count), n, z);
    SumIsFirst(entries, node, size);
  }

  lemma RemoveTracked(records: Records, service: string, node: nat, size: nat, n: nat, z: nat)
    requires Keyed(records)
    ensures Tracked(Remove(records, service, node, size), n, z) ==
            Tracked(records, n, z) - if n == node && z == size then Existing(records, service, node, size) else 0
    ensures Existing(records, service, node, size) >= 0
  {
    var entries := EntriesOf(records, service);
    var after := Remove(records, service, node, size);
    TrackedOf(records, service, n, z);
    TrackedOf(after, service, n, z);
    SumOfWithout(entries, node, size, n, z);
    SumIsFirst(entries, node, size);
    FirstOfWithout(entries, node, size, n, z);
    if after != records {
      assert after - {service} == records - {service};
    }
  }

  // ---------- memory_manager.get_numa_hugepages_info: the overlay ----------

  function Max(a: int, b: int): int { if a >= b then a else b }

  function Min(a: int, b: int): int { if a <= b then a else b }

  function Get(table: map<nat, int>, size: nat): int {
    if size in table then table[size] else 0
  }

  /** `_get_node_allocations` for one service: the sums of its records in the node, by size. */
  method SumsOf(entries: seq<Record>, node: nat) returns (sums: map<nat, int>)
    ensures forall size :: Get(sums, size) == SumEntries(entries, node, size)
  {
    sums := map[];
    var i := 0;
    assert entries[..0] == [];
    while i < |entries|
      invariant 0 <= i <= |entries|
      invariant forall size :: Get(sums, size) == SumEntries(entries[..i], node, size)
    {
      var entry := entries[i];
      ghost var before := sums;
      assert entries[..i + 1] == entries[..i] + [entry];
      forall size ensures SumEntries(entries[..i + 1], node, size)
                       == SumEntries(entries[..i], node, size) + if Matches(entry, node, size) then entry.count else 0
      {
        SumOfAppend(entries[..i], entry, node, size);
      }
      if entry.node == node {
        sums := sums[entry.size := Get(sums, entry.size) + entry.count];
      }
      assert forall size :: Get(sums, size) == Get(before, size) + if Matches(entry, node, size) then entry.count else 0;
      i := i + 1;
    }
    assert entries[..i] == entries;
  }

  /** `_get_node_allocations`: the services that have records in the node. */
  method NodeAllocations(records: Records, node: nat) returns (table: map<string, map<nat, int>>)
    ensures table.Keys <= records.Keys
    ensures forall s, size :: s in records ==>
              (if s in table then Get(table[s], size) else 0) == SumEntries(records[s], node, size)
  {
    table := map[];
    var todo := records.Keys;
    while todo != {}
      invariant todo <= records.Keys && table.Keys <= records.Keys - todo
      invariant forall s, size :: s in records && s !in todo ==>
                  (if s in table then Get(table[s], size) else 0) == SumEntries(records[s], node, size)
      decreases todo
    {
      var service :| service in todo;
      var sums := SumsOf(records[service], node);
      if sums != map[] {
        table := table[service := sums];
      }
      todo := todo - {service};
    }
  }

  /** The sum of one size over a table of services. */
  ghost function Column(table: map<string, map<nat, int>>, size: nat): int {
    if table == map[] then 0 else
      var s :| s in table;
      Get(table[s], size) + Column(table - {s}, size)
  }

  lemma {:induction false} ColumnSplit(table: map<string, map<nat, int>>, service: string, size: nat)
    requires service in table
    ensures Column(table, size) == Get(table[service], size) + Column(table - {service}, size)
    decreases table
  {
    var s :| s in table && Column(table, size) == Get(table[s], size) + Column(table - {s}, size);
    if s != service {
      ColumnSplit(table - {s}, service, size);
      ColumnSplit(table - {service}, s, size);
      assert table - {s} - {service} == table - {service} - {s};
    }
  }

  lemma {:induction false} ColumnIsTracked(table: map<string, map<nat, int>>, records: Records, node: nat, size: nat)
    requires table.Keys <= records.Keys
    requires forall s :: s in records ==>
               (if s in table then Get(table[s], size) else 0) == SumEntries(records[s], node, size)
    ensures Column(table, size) == Tracked(records, node, size)
    decreases records
  {
    if records == map[] {
      assert table.Keys == {};
    } else {
      var s :| s in records;
      TrackedSplit(records, s, node, size);
      if s in table {
        ColumnSplit(table, s, size);
      } else {
        assert table - {s} == table;
      }
      ColumnIsTracked(table - {s}, records - {s}, node, size);
    }
  }

  /** Adds one service's sums to the totals, size by size. */
  method AddSums(totals: map<nat, int>, sums: map<nat, int>) returns (added: map<nat, int>)
    ensures forall size :: Get(added, size) == Get(totals, size) + Get(sums, size)
  {
    added := totals;
    var todo := sums.Keys;
    while todo != {}
      invariant todo <= sums.Keys
      invariant forall size :: Get(added, size) == Get(totals, size) + if size in todo then 0 else Get(sums, size)
      decreases todo
    {
      var size :| size in todo;
      added := added[size := Get(added, size) + sums[size]];
      todo := todo - {size};
    }
  }

  /** `tracked_per_size` of one node: for every size, what all services have recorded. */
  method TrackedPerSize(records: Records, node: nat) returns (tracked: map<nat, int>)
    ensures forall size :: Get(tracked, size) == Tracked(records, node, size)
  {
    var table := NodeAllocations(records, node);
    tracked := map[];
    var rest := table;
    while rest != map[]
      invariant rest.Keys <= table.Keys
      invariant forall size :: Get(tracked, size) + Column(rest, size) == Column(table, size)
      decreases |rest|
    {
      var service :| service in rest;
      forall size ensures Column(rest, size) == Get(rest[service], size) + Column(rest - {service}, size) {
        ColumnSplit(rest, service, size);
      }
      tracked := AddSums(tracked, rest[service]);
      rest := rest - {service};
    }
    forall size ensures Column(table, size) == Tracked(records, node, size) {
      ColumnIsTracked(table, records, node, size);
    }
  }

  /** Free pages reported after the overlay: records that no page is in use for yet are set aside. */
  function AdjustedFree(total: int, free: int, tracked: int): int {
    if tracked <= 0 then free else Max(free - Max(tracked - Max(total - free, 0), 0), 0)
  }

  /** With sane kernel numbers this is the smaller of what the kernel and what the records leave. */
  lemma AdjustedFreeIsMinimum(total: int, free: int, tracked: int)
    requires 0 <= free <= total && tracked >= 0
    ensures AdjustedFree(total, free, tracked) == Min(free, Max(total - tracked, 0))
  {
  }

  /** `stats["free"]` and `stats["used"]` after the overlay; together they still cover all pages. */
  method Overlay(total: int, free: int, tracked: int) returns (freeOut: int, usedOut: int)
    ensures freeOut == AdjustedFree(total, free, tracked)
    ensures 0 <= free <= total ==> freeOut + usedOut == total
  {
    var used := Max(total - free, 0);
    freeOut, usedOut := free, used;
    if tracked > 0 {
      var toOverlay := Max(tracked - used, 0);
      freeOut := Max(free - toOverlay, 0);
      usedOut := Min(used + (free - freeOut), total);
    }
  }

  // ---------- daemon_handler.handle_allocate_hugepages ----------

  /** What sysfs reports for one node and size. */
  datatype Capacity = Capacity(total: int, free: int)

  datatype Op =
    | Set(service: string, node: nat, size: nat, count: int)
    | Drop(service: string, node: nat, size: nat)

  /** The one database transaction a request runs. */
  function Apply(op: Op, records: Records): Records {
    match op
    case Set(service, node, size, count) => Upsert(records, service, node, size, count)
    case Drop(service, node, size) => Remove(records, service, node, size)
  }

  /** The documented domain: -1 or a positive number of pages. */
  type Requested = n: int | n == -1 || n > 0 witness 1

  /** The check that precedes the transaction; None is an error reply. The overlay is computed
      from one reading of the records, the service's own record comes from a later one. */
  ghost function Check(
    seen: Records, own: Records, service: string, node: nat, size: nat, requested: Requested,
    capacity: Option<Capacity>): Option<Op>
  {
    if requested == -1 then Some(Drop(service, node, size))
    else
      match capacity
      case None => None
      case Some(c) =>
        var free := AdjustedFree(c.total, c.free, Tracked(seen, node, size));
        var delta := requested - Existing(own, service, node, size);
        if delta > 0 && free < delta then None else Some(Set(service, node, size, requested))
  }

  method CheckRequest(
    seen: Records, own: Records, service: string, node: nat, size: nat, requested: Requested,
    capacity: Option<Capacity>) returns (op: Option<Op>)
    ensures op == Check(seen, own, service, node, size, requested, capacity)
    ensures op.Some? ==> forall now :: Sets(now, Apply(op.value, now), service, node, size, requested)
  {
    hide Apply, Lookup, Tracked, Sets;
    if Check(seen, own, service, node, size, requested, capacity).Some? {
      forall now
        ensures Sets(now, Apply(Check(seen, own, service, node, size, requested, capacity).value, now), service, node,
                     size, requested)
      {
        AcceptedWrites(seen, own, now, service, node, size, requested, capacity);
      }
    }
    if requested == -1 {
      return Some(Drop(service, node, size));
    }
    if capacity.None? {
      return None;
    }
    var tracked := TrackedPerSize(seen, node);
    var free, _ := Overlay(capacity.value.total, capacity.value.free, Get(tracked, size));
    var delta := requested - Existing(own, service, node, size);
    if delta > 0 && free < delta {
      return None;
    }
    op := Some(Set(service, node, size, requested));
  }

  /** The key is cleared by -1 and set to the requested number otherwise; no other key changes. */
  ghost predicate Sets(before: Records, after: Records, service: string, node: nat, size: nat, requested: Requested) {
    forall s, n, z :: Lookup(after, s, n, z) == NewRecord(before, service, node, size, requested, s, n, z)
  }

  function NewRecord(
    before: Records, service: string, node: nat, size: nat, requested: Requested, s: string, n: nat,
    z: nat): Option<int>
  {
    if s == service && n == node && z == size then (if requested == -1 then None else Some(requested))
    else Lookup(before, s, n, z)
  }

  /** What an accepted request makes of any records. */
  lemma AcceptedWrites(
    seen: Records, own: Records, now: Records, service: string, node: nat, size: nat, requested: Requested,
    capacity: Option<Capacity>)
    requires Check(seen, own, service, node, size, requested, capacity).Some?
    ensures Sets(now, Apply(Check(seen, own, service, node, size, requested, capacity).value, now), service, node, size,
                 requested)
  {
    hide Lookup, Tracked, Upsert, Remove;
    var after := Apply(Check(seen, own, service, node, size, requested, capacity).value, now);
    forall s, n, z ensures Lookup(after, s, n, z) == NewRecord(now, service, node, size, requested, s, n, z) {
      if requested == -1 {
        RemoveIsMapRemoval(now, service, node, size, s, n, z);
      } else {
        UpsertIsMapUpdate(now, service, node, size, requested, s, n, z);
      }
    }
  }

  lemma RemovalChanges(
    seen: Records, own: Records, now: Records, service: string, node: nat, size: nat, capacity: Option<Capacity>)
    ensures var op := Check(seen, own, service, node, size, -1, capacity);
            op.Some? && (Apply(op.value, now) != now <==> Lookup(now, service, node, size).Some?)
  {
    RemoveIsMapRemoval(now, service, node, size, service, node, size);
  }

  /** A removal is always accepted. Anything else is accepted if and only if the size exists on the
      node and the increase over the service's own record is not positive, or within both what the
      kernel reports free and what the records leave. */
  lemma AcceptedIff(
    seen: Records, own: Records, service: string, node: nat, size: nat, requested: Requested,
    capacity: Option<Capacity>)
    requires Keyed(seen)
    requires capacity.Some? ==> 0 <= capacity.value.free <= capacity.value.total
    ensures Check(seen, own, service, node, size, requested, capacity).Some? <==>
            || requested == -1
            || (&& capacity.Some?
                && var recorded := match Lookup(own, service, node, size) case Some(count) => count case None => 0;
                   || requested <= recorded
                   || (&& requested - recorded <= capacity.value.free
                       && requested - recorded <= capacity.value.total - Tracked(seen, node, size)))
  {
    OthersAndOwn(seen, service, node, size);
    TrackedNotNegative(seen, node, size);
    hide Tracked, Lookup, Others, Keyed;
  }

  lemma {:induction false} TrackedNotNegative(records: Records, node: nat, size: nat)
    requires Keyed(records)
    ensures Tracked(records, node, size) >= 0
  {
    if records != map[] {
      var s :| s in records;
      TrackedSplit(records, s, node, size);
      SumIsFirst(records[s], node, size);
      TrackedNotNegative(records - {s}, node, size);
    }
  }

  ghost predicate Sound(capacity: Option<Capacity>, total: int) {
    capacity.Some? ==> capacity.value.total == total && 0 <= capacity.value.free <= total
  }

  // ---------- When a write stays within the pages ----------

  /** What the other services have recorded. */
  ghost function Others(records: Records, service: string, node: nat, size: nat): int {
    Tracked(records - {service}, node, size)
  }

  /** The new record fits beside what the other services hold when it is written. */
  ghost predicate Fits(op: Op, records: Records, node: nat, size: nat, total: int) {
    op.Set? && op.node == node && op.size == size ==> Others(records, op.service, node, size) + op.count <= total
  }

  /** Requests write positive counts only. */
  predicate Proper(op: Op) { op.Set? ==> op.count > 0 }

  lemma OthersAndOwn(records: Records, service: string, node: nat, size: nat)
    requires Keyed(records)
    ensures Tracked(records, node, size)
         == Others(records, service, node, size) + Existing(records, service, node, size)
    ensures Existing(records, service, node, size) >= 0
  {
    TrackedOf(records, service, node, size);
    SumIsFirst(EntriesOf(records, service), node, size);
  }

  /** A write keeps the total of a node and size within the pages if and only if it fits. */
  lemma WithinIffFits(op: Op, records: Records, node: nat, size: nat, total: int)
    requires Keyed(records) && Proper(op) && Tracked(records, node, size) <= total
    ensures Keyed(Apply(op, records))
    ensures Tracked(Apply(op, records), node, size) <= total <==> Fits(op, records, node, size, total)
  {
    OthersAndOwn(records, op.service, node, size);
    match op
    case Set(service, n, z, count) =>
      UpsertKeeps(records, service, n, z, count);
      UpsertTracked(records, service, n, z, count, node, size);
    case Drop(service, n, z) =>
      RemoveKeeps(records, service, n, z);
      RemoveTracked(records, service, n, z, node, size);
  }

  /** What the check is for: an accepted request fits any later records in which the others have
      not grown since the first reading, provided its own record had not grown by the second. */
  lemma AcceptedFits(
    seen: Records, own: Records, now: Records, service: string, requested: Requested, capacity: Option<Capacity>,
    node: nat, size: nat, total: int)
    requires Keyed(seen) && Tracked(seen, node, size) <= total && Sound(capacity, total)
    requires Check(seen, own, service, node, size, requested, capacity).Some?
    requires Existing(own, service, node, size) <= Existing(seen, service, node, size)
    requires Others(now, service, node, size) <= Others(seen, service, node, size)
    ensures Fits(Check(seen, own, service, node, size, requested, capacity).value, now, node, size, total)
  {
    OthersAndOwn(seen, service, node, size);
    hide Existing, Others, Tracked, Keyed;
  }

  /** A request that is checked and written against the same records keeps every tracked total
      within the pages that exist, whatever the kernel reports as free. */
  lemma CheckedRequestFits(
    records: Records, service: string, node: nat, size: nat, requested: Requested, capacity: Option<Capacity>,
    n: nat, z: nat, total: int)
    requires Keyed(records) && Tracked(records, n, z) <= total
    requires n == node && z == size ==> Sound(capacity, total)
    requires Check(records, records, service, node, size, requested, capacity).Some?
    ensures var after := Apply(Check(records, records, service, node, size, requested, capacity).value, records);
            Keyed(after) && Tracked(after, n, z) <= total
  {
    hide Tracked, Keyed, Existing, Others, Apply;
    var op := Check(records, records, service, node, size, requested, capacity).value;
    if n == node && z == size {
      AcceptedFits(records, records, records, service, requested, capacity, node, size, total);
    }
    WithinIffFits(op, records, n, z, total);
  }

  // ---------- Runs ----------

  /** A handled request: what it asks and what sysfs said, the positions in the run at which it
      made its two readings, and whether its transaction committed. */
  datatype HugeRequest = HugeRequest(
    service: string, node: nat, size: nat, requested: Requested, capacity: Option<Capacity>,
    first: nat, second: nat, stored: bool)

  /** Readings precede the write. */
  predicate Timed(requests: seq<HugeRequest>) {
    forall i :: 0 <= i < |requests| ==> requests[i].first <= requests[i].second <= i
  }

  /** The write that the last request of a run comes to; None when it is refused or not stored. */
  ghost function LastWrite(records: Records, requests: seq<HugeRequest>): Option<Op>
    requires Timed(requests) && requests != []
    decreases |requests|, 0
  {
    var r := requests[|requests| - 1];
    if !r.stored then None
    else Check(Serve(records, requests[..r.first]), Serve(records, requests[..r.second]),
               r.service, r.node, r.size, r.requested, r.capacity)
  }

  /** The records after a run in which checks and writes of different requests interleave. */
  ghost function Serve(records: Records, requests: seq<HugeRequest>): Records
    requires Timed(requests)
    decreases |requests|, 1
  {
    if requests == [] then records else
      var before := Serve(records, requests[..|requests| - 1]);
      match LastWrite(records, requests) case Some(op) => Apply(op, before) case None => before
  }

  ghost predicate WithinAt(records: Records, requests: seq<HugeRequest>, n: nat, node: nat, size: nat, total: int)
    requires Timed(requests) && n <= |requests|
  {
    Tracked(Serve(records, requests[..n]), node, size) <= total
  }

  /** The write of request `n` fits the records at that time. */
  ghost predicate WriteFits(records: Records, requests: seq<HugeRequest>, n: nat, node: nat, size: nat, total: int)
    requires Timed(requests) && n < |requests|
  {
    match LastWrite(records, requests[..n + 1])
    case Some(op) => Fits(op, Serve(records, requests[..n]), node, size, total)
    case None => true
  }

  lemma WriteIsProper(records: Records, requests: seq<HugeRequest>)
    requires Timed(requests) && requests != []
    ensures LastWrite(records, requests).Some? ==> Proper(LastWrite(records, requests).value)
  {
    hide Serve, Tracked, Existing;
  }

  lemma {:induction false} ServeKeyed(records: Records, requests: seq<HugeRequest>)
    requires Keyed(records) && Timed(requests)
    ensures Keyed(Serve(records, requests))
  {
    hide Keyed, LastWrite;
    if requests != [] {
      var before := Serve(records, requests[..|requests| - 1]);
      ServeKeyed(records, requests[..|requests| - 1]);
      WriteIsProper(records, requests);
      if LastWrite(records, requests).Some? {
        WithinIffFits(LastWrite(records, requests).value, before, 0, 0, Tracked(before, 0, 0));
      }
    }
  }

  lemma ServeOneMore(records: Records, requests: seq<HugeRequest>, n: nat, node: nat, size: nat, total: int)
    requires Keyed(records) && Timed(requests) && n < |requests| && WithinAt(records, requests, n, node, size, total)
    ensures WithinAt(records, requests, n + 1, node, size, total) <==> WriteFits(records, requests, n, node, size, total)
  {
    hide Keyed, Tracked, LastWrite, Fits;
    var longer := requests[..n + 1];
    assert longer[..n] == requests[..n];
    ServeKeyed(records, requests[..n]);
    WriteIsProper(records, longer);
    if LastWrite(records, longer).Some? {
      WithinIffFits(LastWrite(records, longer).value, Serve(records, requests[..n]), node, size, total);
    }
  }

  lemma {:induction false} FittingWrites(
    records: Records, requests: seq<HugeRequest>, n: nat, node: nat, size: nat, total: int)
    requires Keyed(records) && Timed(requests) && n <= |requests| && Tracked(records, node, size) <= total
    requires forall k :: 0 <= k < n ==> WriteFits(records, requests, k, node, size, total)
    ensures WithinAt(records, requests, n, node, size, total)
  {
    hide WriteFits, Keyed, Tracked;
    if n > 0 {
      FittingWrites(records, requests, n - 1, node, size, total);
      ServeOneMore(records, requests, n - 1, node, size, total);
    }
  }

  /** The check is not part of the transaction. Over any run, however checks and writes interleave,
      the records stay within the pages if and only if every write fits what the other services
      hold when it is made. */
  lemma StaleCheckFits(records: Records, requests: seq<HugeRequest>, node: nat, size: nat, total: int)
    requires Keyed(records) && Timed(requests) && Tracked(records, node, size) <= total
    ensures (forall n :: 0 <= n <= |requests| ==> WithinAt(records, requests, n, node, size, total))
       <==> (forall n :: 0 <= n < |requests| ==> WriteFits(records, requests, n, node, size, total))
  {
    hide WriteFits, WithinAt, Keyed, Tracked;
    if forall n :: 0 <= n <= |requests| ==> WithinAt(records, requests, n, node, size, total) {
      forall n | 0 <= n < |requests| ensures WriteFits(records, requests, n, node, size, total) {
        assert WithinAt(records, requests, n, node, size, total) && WithinAt(records, requests, n + 1, node, size, total);
        ServeOneMore(records, requests, n, node, size, total);
      }
    }
    if forall n :: 0 <= n < |requests| ==> WriteFits(records, requests, n, node, size, total) {
      forall n | 0 <= n <= |requests| ensures WithinAt(records, requests, n, node, size, total) {
        FittingWrites(records, requests, n, node, size, total);
      }
    }
  }

  /** Between its first reading and its write, nobody else's records of the node and size have
      grown, and between its readings neither has its own. */
  ghost predicate Undisturbed(records: Records, requests: seq<HugeRequest>, n: nat)
    requires Timed(requests) && n < |requests|
  {
    var r := requests[n];
    var seen, own := Serve(records, requests[..r.first]), Serve(records, requests[..r.second]);
    && Existing(own, r.service, r.node, r.size) <= Existing(seen, r.service, r.node, r.size)
    && Others(Serve(records, requests[..n]), r.service, r.node, r.size) <= Others(seen, r.service, r.node, r.size)
  }

  lemma UndisturbedFits(records: Records, requests: seq<HugeRequest>, n: nat, node: nat, size: nat, total: int)
    requires Keyed(records) && Timed(requests) && n < |requests| && Undisturbed(records, requests, n)
    requires WithinAt(records, requests, requests[n].first, node, size, total)
    requires requests[n].node == node && requests[n].size == size ==> Sound(requests[n].capacity, total)
    ensures WriteFits(records, requests, n, node, size, total)
  {
    hide Keyed, Tracked, Serve, Existing, Others;
    var r, longer := requests[n], requests[..n + 1];
    assert longer[..r.first] == requests[..r.first] && longer[..r.second] == requests[..r.second];
    ServeKeyed(records, requests[..r.first]);
    var seen, own := Serve(records, requests[..r.first]), Serve(records, requests[..r.second]);
    if r.stored && r.node == node && r.size == size && Check(seen, own, r.service, node, size, r.requested, r.capacity).Some? {
      AcceptedFits(seen, own, Serve(records, requests[..n]), r.service, r.requested, r.capacity, node, size, total);
    }
  }

  /** Capacity over whole runs: when no request is disturbed between its check and its write, the
      records of a node and size never add up to more pages than it has, whatever the kernel
      reports as free and whichever transactions fail. A process that is alone and serves one
      request at a time is never disturbed. */
  lemma {:induction false} CapacityOverRuns(
    records: Records, requests: seq<HugeRequest>, n: nat, node: nat, size: nat, total: int)
    requires Keyed(records) && Timed(requests) && Tracked(records, node, size) <= total && n <= |requests|
    requires forall r :: r in requests && r.node == node && r.size == size ==> Sound(r.capacity, total)
    requires forall k :: 0 <= k < n ==> Undisturbed(records, requests, k)
    ensures WithinAt(records, requests, n, node, size, total)
  {
    hide Undisturbed, WithinAt, WriteFits, Keyed, Tracked;
    if n == 0 {
      NothingServed(records, requests, node, size, total);
    } else {
      CapacityOverRuns(records, requests, n - 1, node, size, total);
      CapacityOverRuns(records, requests, requests[n - 1].first, node, size, total);
      assert requests[n - 1] in requests;
      UndisturbedFits(records, requests, n - 1, node, size, total);
      ServeOneMore(records, requests, n - 1, node, size, total);
    }
  }

  lemma NothingServed(records: Records, requests: seq<HugeRequest>, node: nat, size: nat, total: int)
    requires Timed(requests) && Tracked(records, node, size) <= total
    ensures WithinAt(records, requests, 0, node, size, total)
  {
  }

  lemma AloneIsUndisturbed(records: Records, requests: seq<HugeRequest>, n: nat)
    requires Timed(requests) && n < |requests| && requests[n].first == n
    ensures Undisturbed(records, requests, n)
  {
    hide Serve, Existing, Others;
    assert requests[n].second == n;
  }

  lemma FreshCheck(service: string)
    ensures Check(map[], map[], service, 0, 2048, 3, Some(Capacity(4, 4))) == Some(Set(service, 0, 2048, 3))
  {
  }

  lemma FreshRequest(service: string) returns (r: HugeRequest)
    ensures r == HugeRequest(service, 0, 2048, 3, Some(Capacity(4, 4)), 0, 0, true)
    ensures forall before: seq<HugeRequest> :: Timed(before + [r]) ==>
              LastWrite(map[], before + [r]) == Some(Set(service, 0, 2048, 3))
  {
    FreshCheck(service);
    hide Check;
    r := HugeRequest(service, 0, 2048, 3, Some(Capacity(4, 4)), 0, 0, true);
    forall before: seq<HugeRequest> | Timed(before + [r])
      ensures LastWrite(map[], before + [r]) == Some(Set(service, 0, 2048, 3))
    {
      assert (before + [r])[..0] == [];
      assert Serve(map[], (before + [r])[..0]) == map[];
    }
  }

  /** Two processes that both check before either writes can promise six pages out of four. */
  lemma InterleavedChecksOvercommit()
    ensures var a := HugeRequest("a", 0, 2048, 3, Some(Capacity(4, 4)), 0, 0, true);
            var b := HugeRequest("b", 0, 2048, 3, Some(Capacity(4, 4)), 0, 0, true);
            Timed([a, b]) && Tracked(Serve(map[], [a, b]), 0, 2048) == 6
  {
    hide LastWrite, Tracked;
    var a := FreshRequest("a");
    var b := FreshRequest("b");
    var first := Upsert(map[], "a", 0, 2048, 3);
    assert Timed([] + [a]) && Timed([a] + [b]);
    assert [] + [a] == [a] && [a] + [b] == [a, b] && [a, b][..1] == [a] && [a][..0] == [];
    assert Serve(map[], [a]) == first;
    assert Serve(map[], [a, b]) == Upsert(first, "b", 0, 2048, 3);
    UpsertKeeps(map[], "a", 0, 2048, 3);
    UpsertTracked(map[], "a", 0, 2048, 3, 0, 2048);
    UpsertTracked(first, "b", 0, 2048, 3, 0, 2048);
    NothingTracked(0, 2048);
  }

  lemma NothingTracked(node: nat, size: nat)
    ensures Tracked(map[], node, size) == 0
  {
  }
}

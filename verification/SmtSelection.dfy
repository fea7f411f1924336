/** The SMT-aware selector of allocations_db.py: grouping by sibling sets, then pairs, singles
    and leftovers. The sibling map is arbitrary: it may be partial or asymmetric. */
module SmtSelection {
  import opened SortedSets

  type Siblings = map<nat, set<nat>>
  type Groups = seq<seq<nat>>

  // ---------- Functional specification ----------

  /** The listed siblings of a CPU and the CPU itself. */
  function Core(cpu: nat, siblings: Siblings): set<nat> {
    (if cpu in siblings then siblings[cpu] else {cpu}) + {cpu}
  }

  /** The members grouped with `cpu`: its listed siblings and itself, unless taken before. */
  function Members(cpu: nat, siblings: Siblings, ungrouped: set<nat>): set<nat> {
    Core(cpu, siblings) * ungrouped
  }

  function GroupsFrom(order: seq<nat>, siblings: Siblings, ungrouped: set<nat>): Groups {
    if order == [] then []
    else if order[0] !in ungrouped then GroupsFrom(order[1..], siblings, ungrouped)
    else
      var members := Members(order[0], siblings, ungrouped);
      [Sorted(members)] + GroupsFrom(order[1..], siblings, ungrouped - members)
  }

  function GroupsOf(candidates: set<nat>, siblings: Siblings): Groups {
    GroupsFrom(Sorted(candidates), siblings, candidates)
  }

  function Flatten(groups: Groups): seq<nat> {
    if groups == [] then [] else groups[0] + Flatten(groups[1..])
  }

  /** CPUs taken two per group while two fit the budget, and what remains of the groups. */
  function Pairs(groups: Groups, budget: nat): (r: (seq<nat>, Groups))
    ensures |r.0| <= budget && |r.1| == |groups|
  {
    if groups == [] || budget < 2 then ([], groups)
    else if |groups[0]| >= 2 then
      var rest := Pairs(groups[1..], budget - 2);
      (groups[0][..2] + rest.0, [groups[0][2..]] + rest.1)
    else
      var rest := Pairs(groups[1..], budget);
      (rest.0, [groups[0]] + rest.1)
  }

  /** CPUs taken one per non-empty group while the budget lasts. */
  function Singles(groups: Groups, budget: nat): (r: (seq<nat>, Groups))
    ensures |r.0| <= budget && |r.1| == |groups|
  {
    if groups == [] || budget == 0 then ([], groups)
    else if groups[0] != [] then
      var rest := Singles(groups[1..], budget - 1);
      ([groups[0][0]] + rest.0, [groups[0][1..]] + rest.1)
    else
      var rest := Singles(groups[1..], budget);
      (rest.0, [groups[0]] + rest.1)
  }

  function Least(a: nat, b: nat): nat { if a <= b then a else b }

  function Prefix(s: seq<nat>, n: nat): seq<nat> { if n <= |s| then s[..n] else s }

  /** Cutting the front off one more group keeps what is conserved. */
  lemma CutConserves(g: seq<nat>, cut: nat, taken: seq<nat>, rest: Groups, more: Groups)
    requires cut <= |g| && |taken| + |Flatten(rest)| == |Flatten(more)|
    requires multiset(taken) + multiset(Flatten(rest)) == multiset(Flatten(more))
    ensures |g[..cut] + taken| + |Flatten([g[cut..]] + rest)| == |Flatten([g] + more)|
    ensures multiset(g[..cut] + taken) + multiset(Flatten([g[cut..]] + rest)) == multiset(Flatten([g] + more))
  {
    assert ([g[cut..]] + rest)[1..] == rest && ([g] + more)[1..] == more;
    assert g == g[..cut] + g[cut..];
  }

  lemma {:induction false} PairsConserve(groups: Groups, budget: nat)
    ensures var (taken, rest) := Pairs(groups, budget);
            && |taken| + |Flatten(rest)| == |Flatten(groups)|
            && multiset(taken) + multiset(Flatten(rest)) == multiset(Flatten(groups))
  {
    hide Flatten;
    if groups == [] || budget < 2 {
      assert multiset(Pairs(groups, budget).0) == multiset{};
    } else {
      var g := groups[0];
      var cut := if |g| >= 2 then 2 else 0;
      var next := Pairs(groups[1..], budget - cut);
      PairsConserve(groups[1..], budget - cut);
      CutConserves(g, cut, next.0, next.1, groups[1..]);
      assert groups == [g] + groups[1..] && g[0..] == g && g[..0] + next.0 == next.0;
    }
  }

  lemma {:induction false} SinglesConserve(groups: Groups, budget: nat)
    ensures var (taken, rest) := Singles(groups, budget);
            && |taken| + |Flatten(rest)| == |Flatten(groups)|
            && multiset(taken) + multiset(Flatten(rest)) == multiset(Flatten(groups))
  {
    hide Flatten;
    if groups == [] || budget == 0 {
      assert multiset(Singles(groups, budget).0) == multiset{};
    } else {
      var g := groups[0];
      assert groups == [g] + groups[1..];
      if g == [] {
        var next := Singles(groups[1..], budget);
        SinglesConserve(groups[1..], budget);
        CutConserves(g, 0, next.0, next.1, groups[1..]);
        assert g[0..] == g && g[..0] + next.0 == next.0;
      } else {
        var next := Singles(groups[1..], budget - 1);
        SinglesConserve(groups[1..], budget - 1);
        CutConserves(g, 1, next.0, next.1, groups[1..]);
        assert g[..1] == [g[0]];
      }
    }
  }

  /** Pairs first, then singles, then leftovers. */
  function SelectFrom(groups: Groups, count: nat): seq<nat> {
    var pairs := Pairs(groups, count);
    var singles := Singles(pairs.1, count - |pairs.0|);
    pairs.0 + singles.0 + Prefix(Flatten(singles.1), count - |pairs.0| - |singles.0|)
  }

  function Select(candidates: set<nat>, siblings: Siblings, count: nat): set<nat> {
    Elements(SelectFrom(GroupsOf(candidates, siblings), count))
  }

  // ---------- Exactness: any sibling map ----------

  lemma {:induction false} DistinctElements(s: seq<nat>, pool: set<nat>)
    requires multiset(s) <= multiset(pool)
    ensures Elements(s) <= pool && |Elements(s)| == |s|
  {
    if s != [] {
      assert s == [s[0]] + s[1..];
      assert multiset(s) == multiset{s[0]} + multiset(s[1..]);
      assert multiset(s)[s[0]] >= 1 && multiset(pool)[s[0]] <= 1;
      var rest := pool - {s[0]};
      forall x ensures multiset(s[1..])[x] <= multiset(rest)[x] {
        assert multiset(s)[x] <= multiset(pool)[x];
      }
      DistinctElements(s[1..], rest);
      assert Elements(s) == {s[0]} + Elements(s[1..]);
    }
  }

  lemma {:induction false} SortedMultiset(s: set<nat>)
    ensures multiset(Sorted(s)) == multiset(s)
  {
    if s != {} {
      var m := Minimum(s);
      SortedMultiset(s - {m});
      assert s == {m} + (s - {m});
    }
  }

  lemma MultisetUnion(a: set<nat>, b: set<nat>)
    requires a !! b
    ensures multiset(a + b) == multiset(a) + multiset(b)
  {
  }

  lemma FlattenCons(first: seq<nat>, tail: Groups)
    ensures multiset(Flatten([first] + tail)) == multiset(first) + multiset(Flatten(tail))
  {
    assert ([first] + tail)[1..] == tail;
  }

  /** Grouping loses no candidate and duplicates none. */
  lemma {:induction false} GroupsPartition(order: seq<nat>, siblings: Siblings, ungrouped: set<nat>)
    requires ungrouped <= Elements(order)
    ensures multiset(Flatten(GroupsFrom(order, siblings, ungrouped))) == multiset(ungrouped)
  {
    hide Sorted, Elements, Members, Flatten;
    if order == [] {
      NothingToGroup(ungrouped, order, siblings);
    } else if order[0] !in ungrouped {
      Uncovered(order, ungrouped);
      GroupsPartition(order[1..], siblings, ungrouped);
    } else {
      var members := Members(order[0], siblings, ungrouped);
      var left := ungrouped - members;
      assert order[0] in members && members <= ungrouped by { MembersFacts(order[0], siblings, ungrouped); }
      Uncovered(order, left);
      GroupsPartition(order[1..], siblings, left);
      SortedMultiset(members);
      FlattenCons(Sorted(members), GroupsFrom(order[1..], siblings, left));
      MultisetUnion(members, left);
      assert ungrouped == members + left;
    }
  }

  lemma MembersFacts(cpu: nat, siblings: Siblings, ungrouped: set<nat>)
    requires cpu in ungrouped
    ensures cpu in Members(cpu, siblings, ungrouped) && Members(cpu, siblings, ungrouped) <= ungrouped
  {
  }

  lemma NothingToGroup(ungrouped: set<nat>, order: seq<nat>, siblings: Siblings)
    requires order == [] && ungrouped <= Elements(order)
    ensures ungrouped == {} && Flatten(GroupsFrom(order, siblings, ungrouped)) == []
  {
  }

  lemma Uncovered(order: seq<nat>, cpus: set<nat>)
    requires order != [] && cpus <= Elements(order) && order[0] !in cpus
    ensures cpus <= Elements(order[1..])
  {
    assert order == [order[0]] + order[1..];
  }

  lemma PrefixSplits(s: seq<nat>, n: nat)
    ensures |Prefix(s, n)| == Least(n, |s|)
    ensures multiset(Prefix(s, n)) <= multiset(s)
  {
    if n <= |s| { assert s == s[..n] + s[n..]; }
  }

  lemma ConsumptionComposes(
    all: multiset<nat>, pairs: seq<nat>, middle: multiset<nat>, singles: seq<nat>, flat: multiset<nat>, tail: seq<nat>)
    requires multiset(pairs) + middle == all
    requires multiset(singles) + flat == middle
    requires multiset(tail) <= flat
    ensures multiset(pairs + singles + tail) <= all
  {
    assert multiset(pairs + singles + tail) == multiset(pairs) + multiset(singles) + multiset(tail);
  }

  lemma SelectFromParts(groups: Groups, count: nat)
      returns (pairs: seq<nat>, middle: seq<nat>, singles: seq<nat>, flat: seq<nat>, tail: seq<nat>)
    ensures |pairs| + |middle| == |Flatten(groups)| && |singles| + |flat| == |middle|
    ensures |pairs| <= count && |singles| <= count - |pairs|
    ensures |tail| == Least(count - |pairs| - |singles|, |flat|)
    ensures multiset(pairs) + multiset(middle) == multiset(Flatten(groups))
    ensures multiset(singles) + multiset(flat) == multiset(middle)
    ensures multiset(tail) <= multiset(flat)
    ensures SelectFrom(groups, count) == pairs + singles + tail
  {
    var p := Pairs(groups, count);
    var left := count - |p.0|;
    var q := Singles(p.1, left);
    pairs, middle, singles, flat := p.0, Flatten(p.1), q.0, Flatten(q.1);
    tail := Prefix(flat, left - |singles|);
    assert SelectFrom(groups, count) == pairs + singles + tail;
    PairsConserve(groups, count);
    SinglesConserve(p.1, left);
    PrefixSplits(flat, left - |singles|);
  }

  lemma SelectFromExact(groups: Groups, count: nat)
    ensures |SelectFrom(groups, count)| == Least(count, |Flatten(groups)|)
    ensures multiset(SelectFrom(groups, count)) <= multiset(Flatten(groups))
  {
    var pairs, middle, singles, flat, tail := SelectFromParts(groups, count);
    ConsumptionComposes(multiset(Flatten(groups)), pairs, multiset(middle), singles, multiset(flat), tail);
  }

  /** The selector returns exactly `count` distinct candidates whenever there are that many. */
  lemma SelectExact(candidates: set<nat>, siblings: Siblings, count: nat)
    requires count <= |candidates|
    ensures Select(candidates, siblings, count) <= candidates
    ensures |Select(candidates, siblings, count)| == count
  {
    var groups := GroupsOf(candidates, siblings);
    GroupsPartition(Sorted(candidates), siblings, candidates);
    assert |Flatten(groups)| == |multiset(candidates)| == |candidates|;
    SelectFromExact(groups, count);
    DistinctElements(SelectFrom(groups, count), candidates);
  }

  // ---------- Shape of the groups ----------

  ghost predicate Ordered(groups: Groups) {
    && (forall i :: 0 <= i < |groups| ==> groups[i] != [] && Ascending(groups[i]))
    && (forall i, j :: 0 <= i < j < |groups| ==> groups[i][0] < groups[j][0])
    && (forall i, j :: 0 <= i < j < |groups| ==> Elements(groups[i]) !! Elements(groups[j]))
  }

  ghost predicate Within(groups: Groups, cpus: set<nat>) {
    forall i :: 0 <= i < |groups| ==> Elements(groups[i]) <= cpus
  }

  lemma TailAscending(order: seq<nat>)
    requires Ascending(order) && order != []
    ensures Ascending(order[1..])
  {
  }

  lemma NoGroups()
    ensures Ordered([]) && forall cpus :: Within([], cpus)
  {
  }

  /** Groups are ascending, disjoint, and listed by their lowest member. */
  lemma {:induction false} GroupsOrdered(order: seq<nat>, siblings: Siblings, ungrouped: set<nat>)
    requires Ascending(order) && ungrouped <= Elements(order)
    ensures Ordered(GroupsFrom(order, siblings, ungrouped))
    ensures Within(GroupsFrom(order, siblings, ungrouped), ungrouped)
  {
    hide Members, Sorted, Ordered, Within, Ascending, Elements;
    if order == [] {
      NoGroups();
    } else {
      TailAscending(order);
      if order[0] !in ungrouped {
        Uncovered(order, ungrouped);
        GroupsOrdered(order[1..], siblings, ungrouped);
      } else {
        var members := Members(order[0], siblings, ungrouped);
        var left := ungrouped - members;
        var tail := GroupsFrom(order[1..], siblings, left);
        MembersFacts(order[0], siblings, ungrouped);
        Uncovered(order, left);
        GroupsOrdered(order[1..], siblings, left);
        FirstIsMinimum(Sorted(members), order[0], order);
        OrderedCons(Sorted(members), tail, members, left, order);
        assert ungrouped == members + left;
      }
    }
  }

  lemma OrderedCons(first: seq<nat>, tail: Groups, members: set<nat>, left: set<nat>, order: seq<nat>)
    requires first != [] && Ascending(first) && Elements(first) == members && members !! left
    requires Ordered(tail) && Within(tail, left)
    requires Ascending(order) && order != [] && order[0] == first[0] && left <= Elements(order[1..])
    ensures Ordered([first] + tail) && Within([first] + tail, members + left)
  {
    forall j | 0 <= j < |tail| ensures first[0] < tail[j][0] && Elements(first) !! Elements(tail[j]) {
      assert tail[j][0] in Elements(tail[j]);
      assert tail[j][0] in order[1..];
    }
  }

  lemma FirstIsMinimum(s: seq<nat>, m: nat, order: seq<nat>)
    requires Ascending(s) && m in Elements(s) && order != [] && order[0] == m && Ascending(order)
    requires Elements(s) <= Elements(order)
    ensures s != [] && s[0] == m
  {
    assert s[0] in Elements(order);
  }

  /** Among the candidates the sibling lists agree with each other, as a complete sysfs makes them. */
  ghost predicate Agreeing(siblings: Siblings, candidates: set<nat>) {
    forall a, b :: a in candidates && b in candidates && b in Core(a, siblings) ==>
      Core(b, siblings) * candidates == Core(a, siblings) * candidates
  }

  /** No core is split between the grouped and the ungrouped candidates. */
  ghost predicate WholeCores(ungrouped: set<nat>, siblings: Siblings, candidates: set<nat>) {
    forall a :: a in ungrouped ==> a in candidates && Core(a, siblings) * candidates <= ungrouped
  }

  lemma MembersAreCore(cpu: nat, siblings: Siblings, ungrouped: set<nat>, candidates: set<nat>)
    requires cpu in ungrouped && Agreeing(siblings, candidates) && WholeCores(ungrouped, siblings, candidates)
    ensures Members(cpu, siblings, ungrouped) == Core(cpu, siblings) * candidates
    ensures WholeCores(ungrouped - Members(cpu, siblings, ungrouped), siblings, candidates)
  {
    var members := Members(cpu, siblings, ungrouped);
    assert members == Core(cpu, siblings) * candidates;
    forall a, b | a in ungrouped - members && b in Core(a, siblings) * candidates ensures b in ungrouped - members {
      assert a in Core(a, siblings) * candidates;
      assert Core(b, siblings) * candidates == Core(a, siblings) * candidates;
      assert b in members ==> Core(b, siblings) * candidates == members;
    }
  }

  /** When the sibling lists agree, every group holds exactly the candidate threads of one core. */
  lemma {:induction false} GroupsAreCores(
    order: seq<nat>, siblings: Siblings, ungrouped: set<nat>, candidates: set<nat>, i: nat, cpu: nat)
    requires Agreeing(siblings, candidates) && WholeCores(ungrouped, siblings, candidates)
    requires var groups := GroupsFrom(order, siblings, ungrouped); i < |groups| && cpu in groups[i]
    ensures Elements(GroupsFrom(order, siblings, ungrouped)[i]) == Core(cpu, siblings) * candidates
  {
    hide Agreeing, WholeCores, Members, Core, Sorted;
    if order[0] !in ungrouped {
      GroupsAreCores(order[1..], siblings, ungrouped, candidates, i, cpu);
    } else {
      var members := Members(order[0], siblings, ungrouped);
      MembersAreCore(order[0], siblings, ungrouped, candidates);
      if i == 0 {
        assert cpu in Elements(Sorted(members));
        AgreeingCore(order[0], cpu, siblings, ungrouped, candidates);
      } else {
        GroupsAreCores(order[1..], siblings, ungrouped - members, candidates, i - 1, cpu);
      }
    }
  }

  lemma AgreeingCore(a: nat, b: nat, siblings: Siblings, ungrouped: set<nat>, candidates: set<nat>)
    requires Agreeing(siblings, candidates) && WholeCores(ungrouped, siblings, candidates)
    requires a in ungrouped && b in Core(a, siblings) * candidates
    ensures Core(b, siblings) * candidates == Core(a, siblings) * candidates
  {
  }

  /** For agreeing sibling lists two candidates share a group if and only if they share a core. */
  lemma CandidatesGroupedByCore(candidates: set<nat>, siblings: Siblings, i: nat, cpu: nat)
    requires Agreeing(siblings, candidates)
    requires i < |GroupsOf(candidates, siblings)| && cpu in GroupsOf(candidates, siblings)[i]
    ensures Elements(GroupsOf(candidates, siblings)[i]) == Core(cpu, siblings) * candidates
  {
    GroupsAreCores(Sorted(candidates), siblings, candidates, candidates, i, cpu);
  }

  // ---------- Order of consumption ----------

  /** A pair leaves a core only as its two lowest threads, and only when every earlier core that
      has two has given its pair. */
  lemma {:induction false} PairsInOrder(groups: Groups, budget: nat, i: nat, j: nat)
    requires i < j < |groups|
    ensures var rest := Pairs(groups, budget).1;
            && (rest[j] == groups[j] || (|groups[j]| >= 2 && rest[j] == groups[j][2..]))
            && (rest[j] != groups[j] && |groups[i]| >= 2 ==> rest[i] == groups[i][2..])
  {
    if budget >= 2 {
      var left := if |groups[0]| >= 2 then budget - 2 else budget;
      if i > 0 {
        PairsInOrder(groups[1..], left, i - 1, j - 1);
      } else {
        EachPairInOrder(groups[1..], left, j - 1);
      }
    }
  }

  lemma {:induction false} EachPairInOrder(groups: Groups, budget: nat, j: nat)
    requires j < |groups|
    ensures var rest := Pairs(groups, budget).1;
            rest[j] == groups[j] || (|groups[j]| >= 2 && rest[j] == groups[j][2..])
  {
    if budget >= 2 && j > 0 {
      EachPairInOrder(groups[1..], if |groups[0]| >= 2 then budget - 2 else budget, j - 1);
    }
  }

  /** A single is the lowest thread left of its core, and every earlier core that has any left
      has given one. */
  lemma {:induction false} SinglesInOrder(groups: Groups, budget: nat, i: nat, j: nat)
    requires i < j < |groups|
    ensures var rest := Singles(groups, budget).1;
            && (rest[j] == groups[j] || (groups[j] != [] && rest[j] == groups[j][1..]))
            && (rest[j] != groups[j] && groups[i] != [] ==> rest[i] == groups[i][1..])
  {
    if budget > 0 {
      var left := if groups[0] != [] then budget - 1 else budget;
      if i > 0 {
        SinglesInOrder(groups[1..], left, i - 1, j - 1);
      } else {
        EachSingleInOrder(groups[1..], left, j - 1);
      }
    }
  }

  lemma {:induction false} EachSingleInOrder(groups: Groups, budget: nat, j: nat)
    requires j < |groups|
    ensures var rest := Singles(groups, budget).1;
            rest[j] == groups[j] || (groups[j] != [] && rest[j] == groups[j][1..])
  {
    if budget > 0 && j > 0 {
      EachSingleInOrder(groups[1..], if groups[0] != [] then budget - 1 else budget, j - 1);
    }
  }

  // ---------- Optimality ----------

  /** Cores of which `chosen` holds at least two threads. */
  function Paired(groups: Groups, chosen: set<nat>): nat {
    if groups == [] then 0 else
      (if |Elements(groups[0]) * chosen| >= 2 then 1 else 0) + Paired(groups[1..], chosen)
  }

  /** Cores with at least two candidate threads. */
  function PairCapacity(groups: Groups): nat {
    if groups == [] then 0 else (if |groups[0]| >= 2 then 1 else 0) + PairCapacity(groups[1..])
  }

  lemma {:induction false} PairedIgnores(groups: Groups, chosen: set<nat>, extra: set<nat>)
    requires forall i :: 0 <= i < |groups| ==> Elements(groups[i]) !! extra
    ensures Paired(groups, chosen) == Paired(groups, chosen - extra)
  {
    if groups != [] {
      assert Elements(groups[0]) * chosen == Elements(groups[0]) * (chosen - extra);
      PairedIgnores(groups[1..], chosen, extra);
    }
  }

  lemma OrderedTail(groups: Groups)
    requires Ordered(groups) && groups != []
    ensures Ordered(groups[1..]) && Ascending(groups[0])
    ensures forall i :: 0 <= i < |groups| - 1 ==> Elements(groups[1..][i]) !! Elements(groups[0])
  {
    hide Elements, Ascending;
  }

  lemma ChosenSplit(g: set<nat>, chosen: set<nat>)
    ensures |chosen| == |g * chosen| + |chosen - g| && |g * chosen| <= |g|
  {
    SubsetSize(g * chosen, g);
    SplitSize(chosen, g);
    assert chosen * g == g * chosen;
  }

  lemma {:induction false} PairedBound(groups: Groups, chosen: set<nat>)
    requires Ordered(groups)
    ensures 2 * Paired(groups, chosen) <= |chosen|
    ensures Paired(groups, chosen) <= PairCapacity(groups)
  {
    hide Ordered, Elements, Ascending;
    if groups != [] {
      var g := Elements(groups[0]);
      OrderedTail(groups);
      AscendingSize(groups[0]);
      PairedIgnores(groups[1..], chosen, g);
      PairedBound(groups[1..], chosen - g);
      ChosenSplit(g, chosen);
    }
  }

  lemma TwoChosen(g: seq<nat>, rest: seq<nat>, chosen: set<nat>)
    requires |g| >= 2 && Ascending(g)
    requires Elements(g[..2] + rest) <= chosen
    ensures |Elements(g) * chosen| >= 2 && Elements(rest) <= chosen
  {
    var taken := g[..2] + rest;
    assert taken[0] == g[0] && taken[1] == g[1];
    assert forall i :: 0 <= i < |rest| ==> taken[i + 2] == rest[i];
    assert g[0] in Elements(taken) && g[1] in Elements(taken);
    SubsetSize({g[0], g[1]}, Elements(g) * chosen);
  }

  lemma {:induction false} PairsAttain(groups: Groups, budget: nat, chosen: set<nat>)
    requires Ordered(groups)
    requires Elements(Pairs(groups, budget).0) <= chosen
    ensures Paired(groups, chosen) >= Least(budget / 2, PairCapacity(groups))
  {
    if groups != [] && budget >= 2 {
      var g := groups[0];
      if |g| >= 2 {
        var rest := Pairs(groups[1..], budget - 2).0;
        TwoChosen(g, rest, chosen);
        PairsAttain(groups[1..], budget - 2, chosen);
      } else {
        PairsAttain(groups[1..], budget, chosen);
      }
    }
  }

  /** No selection of the same size pairs up threads on more cores. */
  lemma SelectMaximizesPairs(candidates: set<nat>, siblings: Siblings, count: nat, other: set<nat>)
    requires count <= |candidates|
    requires |other| == count
    ensures var groups := GroupsOf(candidates, siblings);
            && Paired(groups, Select(candidates, siblings, count)) == Least(count / 2, PairCapacity(groups))
            && Paired(groups, other) <= Paired(groups, Select(candidates, siblings, count))
  {
    hide Sorted, Pairs, Paired, PairCapacity, GroupsFrom;
    var groups := GroupsOf(candidates, siblings);
    var chosen := Select(candidates, siblings, count);
    GroupsOrdered(Sorted(candidates), siblings, candidates);
    SelectExact(candidates, siblings, count);
    var list := SelectFrom(groups, count);
    var pairs := Pairs(groups, count).0;
    assert forall i :: 0 <= i < |pairs| ==> list[i] == pairs[i];
    PairsAttain(groups, count, chosen);
    PairedBound(groups, chosen);
    PairedBound(groups, other);
  }

  /** Cores with several candidate threads, all of which are chosen. */
  function CompleteCores(groups: Groups, chosen: set<nat>): nat {
    if groups == [] then 0 else
      (if |groups[0]| >= 2 && Elements(groups[0]) <= chosen then 1 else 0) + CompleteCores(groups[1..], chosen)
  }

  lemma {:induction false} CompleteIsPaired(groups: Groups, chosen: set<nat>)
    requires Ordered(groups) && forall i :: 0 <= i < |groups| ==> |groups[i]| <= 2
    ensures CompleteCores(groups, chosen) == Paired(groups, chosen)
  {
    if groups != [] {
      var g := Elements(groups[0]);
      AscendingSize(groups[0]);
      SubsetSize(g * chosen, g);
      if g <= chosen { assert g * chosen == g; }
      CompleteIsPaired(groups[1..], chosen);
    }
  }

  /** With at most two threads per core the selection completes as many cores as any other. */
  lemma SelectMaximizesCompleteCores(candidates: set<nat>, siblings: Siblings, count: nat, other: set<nat>)
    requires count <= |candidates|
    requires forall i :: 0 <= i < |GroupsOf(candidates, siblings)| ==> |GroupsOf(candidates, siblings)[i]| <= 2
    requires |other| == count
    ensures var groups := GroupsOf(candidates, siblings);
            && CompleteCores(groups, Select(candidates, siblings, count)) == Least(count / 2, PairCapacity(groups))
            && CompleteCores(groups, other) <= CompleteCores(groups, Select(candidates, siblings, count))
  {
    var groups := GroupsOf(candidates, siblings);
    GroupsOrdered(Sorted(candidates), siblings, candidates);
    CompleteIsPaired(groups, Select(candidates, siblings, count));
    CompleteIsPaired(groups, other);
    SelectMaximizesPairs(candidates, siblings, count, other);
  }

  // ---------- Machines without SMT ----------

  function Singletons(order: seq<nat>): Groups {
    if order == [] then [] else [[order[0]]] + Singletons(order[1..])
  }

  ghost predicate NoSiblings(candidates: set<nat>, siblings: Siblings) {
    forall c :: c in candidates && c in siblings ==> siblings[c] * candidates <= {c}
  }

  lemma {:induction false} GroupsWithoutSiblings(order: seq<nat>, siblings: Siblings, ungrouped: set<nat>)
    requires Ascending(order) && ungrouped == Elements(order)
    requires NoSiblings(ungrouped, siblings)
    ensures GroupsFrom(order, siblings, ungrouped) == Singletons(order)
  {
    if order != [] {
      assert order == [order[0]] + order[1..];
      var members := Members(order[0], siblings, ungrouped);
      assert members == {order[0]};
      var sorted := Sorted(members);
      assert sorted == [order[0]] by {
        assert sorted[0] in Elements(sorted);
      }
      assert ungrouped - members == Elements(order[1..]);
      GroupsWithoutSiblings(order[1..], siblings, ungrouped - members);
    }
  }

  lemma {:induction false} SinglesOfSingletons(order: seq<nat>, count: nat)
    ensures Pairs(Singletons(order), count) == ([], Singletons(order))
    ensures Singles(Singletons(order), count).0 == Prefix(order, count)
  {
    if order != [] {
      SinglesOfSingletons(order[1..], count);
      assert Singletons(order)[1..] == Singletons(order[1..]);
      if count > 0 {
        SinglesOfSingletons(order[1..], count - 1);
        assert order == [order[0]] + order[1..];
      }
    }
  }

  lemma SelectFromNoPairs(groups: Groups, count: nat)
    requires Pairs(groups, count) == ([], groups) && |Singles(groups, count).0| == count
    ensures SelectFrom(groups, count) == Singles(groups, count).0
  {
    hide Pairs, Singles, Flatten;
    var singles := Singles(groups, count);
    assert SelectFrom(groups, count) == [] + singles.0 + Prefix(Flatten(singles.1), 0);
  }

  lemma SelectFromSingletons(order: seq<nat>, count: nat)
    requires count <= |order|
    ensures SelectFrom(Singletons(order), count) == order[..count]
  {
    SinglesOfSingletons(order, count);
    SelectFromNoPairs(Singletons(order), count);
  }

  /** Without SMT the selector is the legacy one: the lowest `count` candidates. */
  lemma SelectWithoutSiblings(candidates: set<nat>, siblings: Siblings, count: nat)
    requires count <= |candidates| && NoSiblings(candidates, siblings)
    ensures Select(candidates, siblings, count) == Lowest(candidates, count)
  {
    var order := Sorted(candidates);
    GroupsWithoutSiblings(order, siblings, candidates);
    SelectFromSingletons(order, count);
  }

  // ---------- The loops of allocations_db.py ----------

  lemma GroupsStep(order: seq<nat>, i: nat, siblings: Siblings, ungrouped: set<nat>)
    requires i < |order|
    ensures var members := Members(order[i], siblings, ungrouped);
            GroupsFrom(order[i..], siblings, ungrouped) ==
            if order[i] !in ungrouped then GroupsFrom(order[i + 1..], siblings, ungrouped)
            else [Sorted(members)] + GroupsFrom(order[i + 1..], siblings, ungrouped - members)
  {
    assert order[i..][0] == order[i] && order[i..][1..] == order[i + 1..];
  }

  lemma AppendShift<T>(done: seq<T>, next: seq<T>, tail: seq<T>)
    ensures done + next + tail == done + (next + tail)
  {
  }

  method GroupCandidates(candidates: set<nat>, siblings: Siblings) returns (groups: Groups)
    ensures groups == GroupsOf(candidates, siblings)
  {
    hide GroupsFrom, Sorted, Members;
    groups := [];
    var order := Sorted(candidates);
    var ungrouped := candidates;
    var i := 0;
    assert order[0..] == order;
    ghost var whole := GroupsOf(candidates, siblings);
    ghost var rest := whole;
    while i < |order|
      invariant 0 <= i <= |order|
      invariant rest == GroupsFrom(order[i..], siblings, ungrouped)
      invariant groups + rest == whole
    {
      GroupsStep(order, i, siblings, ungrouped);
      if order[i] in ungrouped {
        var members := Members(order[i], siblings, ungrouped);
        ungrouped := ungrouped - members;
        rest := GroupsFrom(order[i + 1..], siblings, ungrouped);
        AppendShift(groups, [Sorted(members)], rest);
        groups := groups + [Sorted(members)];
      }
      i := i + 1;
    }
    NoMoreGroups(order[i..], siblings, ungrouped);
  }

  lemma NoMoreGroups(order: seq<nat>, siblings: Siblings, ungrouped: set<nat>)
    requires order == []
    ensures GroupsFrom(order, siblings, ungrouped) == []
  {
  }

  lemma PairsStep(groups: Groups, i: nat, budget: nat)
    requires i < |groups| && budget >= 2
    ensures var enough := |groups[i]| >= 2;
            var next := Pairs(groups[i + 1..], if enough then budget - 2 else budget);
            && Pairs(groups[i..], budget).0 == (if enough then groups[i][..2] else []) + next.0
            && Pairs(groups[i..], budget).1 == [if enough then groups[i][2..] else groups[i]] + next.1
  {
    assert groups[i..][0] == groups[i] && groups[i..][1..] == groups[i + 1..];
  }

  lemma PairsDone(groups: Groups, budget: nat)
    requires groups == [] || budget < 2
    ensures Pairs(groups, budget) == ([], groups)
  {
  }

  method TakePairs(groups: Groups, budget: nat) returns (taken: seq<nat>, rest: Groups)
    ensures taken == Pairs(groups, budget).0 && rest == Pairs(groups, budget).1
  {
    hide Pairs;
    var consumed: Groups := [];
    var remaining := budget;
    var i := 0;
    taken := [];
    assert groups[0..] == groups;
    ghost var whole := Pairs(groups, budget);
    ghost var todo := whole;
    while i < |groups| && remaining >= 2
      invariant 0 <= i <= |groups| && todo == Pairs(groups[i..], remaining)
      invariant taken + todo.0 == whole.0 && consumed + todo.1 == whole.1
    {
      PairsStep(groups, i, remaining);
      var members := groups[i];
      if |members| >= 2 {
        todo := Pairs(groups[i + 1..], remaining - 2);
        AppendShift(taken, members[..2], todo.0);
        AppendShift(consumed, [members[2..]], todo.1);
        taken := taken + members[..2];
        members := members[2..];
        remaining := remaining - 2;
      } else {
        AppendShift(consumed, [members], Pairs(groups[i + 1..], remaining).1);
        todo := Pairs(groups[i + 1..], remaining);
      }
      consumed := consumed + [members];
      i := i + 1;
    }
    PairsDone(groups[i..], remaining);
    rest := consumed + groups[i..];
  }

  lemma SinglesStep(groups: Groups, i: nat, budget: nat)
    requires i < |groups| && budget >= 1
    ensures var enough := groups[i] != [];
            var next := Singles(groups[i + 1..], if enough then budget - 1 else budget);
            && Singles(groups[i..], budget).0 == (if enough then [groups[i][0]] else []) + next.0
            && Singles(groups[i..], budget).1 == [if enough then groups[i][1..] else groups[i]] + next.1
  {
    assert groups[i..][0] == groups[i] && groups[i..][1..] == groups[i + 1..];
  }

  method TakeSingles(groups: Groups, budget: nat) returns (taken: seq<nat>, rest: Groups)
    ensures taken == Singles(groups, budget).0 && rest == Singles(groups, budget).1
  {
    var consumed: Groups := [];
    var remaining := budget;
    var i := 0;
    taken := [];
    assert groups[0..] == groups;
    ghost var whole := Singles(groups, budget);
    ghost var todo := whole;
    while i < |groups| && remaining >= 1
      invariant 0 <= i <= |groups| && todo == Singles(groups[i..], remaining)
      invariant taken + todo.0 == whole.0 && consumed + todo.1 == whole.1
    {
      SinglesStep(groups, i, remaining);
      hide Singles;
      var members := groups[i];
      if members != [] {
        todo := Singles(groups[i + 1..], remaining - 1);
        AppendShift(taken, [members[0]], todo.0);
        AppendShift(consumed, [members[1..]], todo.1);
        taken := taken + [members[0]];
        members := members[1..];
        remaining := remaining - 1;
      } else {
        AppendShift(consumed, [members], Singles(groups[i + 1..], remaining).1);
        todo := Singles(groups[i + 1..], remaining);
      }
      consumed := consumed + [members];
      i := i + 1;
    }
    rest := consumed + groups[i..];
  }

  method CollectLeftovers(groups: Groups) returns (leftovers: seq<nat>)
    ensures leftovers == Flatten(groups)
  {
    leftovers := [];
    var i := 0;
    assert groups[0..] == groups;
    while i < |groups|
      invariant 0 <= i <= |groups|
      invariant leftovers + Flatten(groups[i..]) == Flatten(groups)
    {
      assert groups[i..][0] == groups[i] && groups[i..][1..] == groups[i + 1..];
      leftovers := leftovers + groups[i];
      i := i + 1;
    }
  }

  method SelectFromGroups(groups: Groups, count: nat) returns (selected: seq<nat>)
    ensures selected == SelectFrom(groups, count)
  {
    var pairs, rest := TakePairs(groups, count);
    selected := pairs;
    var remaining := count - |pairs|;
    ghost var left := remaining;
    ghost var singles := Singles(rest, left);
    ghost var tail := Prefix(Flatten(singles.1), left - |singles.0|);
    assert SelectFrom(groups, count) == pairs + singles.0 + tail;
    if remaining > 0 {
      var taken;
      taken, rest := TakeSingles(rest, remaining);
      selected := selected + taken;
      remaining := remaining - |taken|;
    }
    if remaining > 0 {
      var leftovers := CollectLeftovers(rest);
      selected := selected + Prefix(leftovers, remaining);
    }
    assert selected == pairs + singles.0 + tail;
    selected := Prefix(selected, count);
  }

  method SelectSmtAware(candidates: set<nat>, siblings: Siblings, count: nat) returns (selected: set<nat>)
    ensures selected == Select(candidates, siblings, count)
  {
    var groups := GroupCandidates(candidates, siblings);
    var list := SelectFromGroups(groups, count);
    selected := Elements(list);
  }
}

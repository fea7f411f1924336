/** Exactly when the SMT-aware selector completes as many cores as possible. */
module CoreCompletion {
  import opened SortedSets
  import opened SmtSelection
  import opened CoreShares

  // ---------- What the three loops leave in each group ----------

  /** The groups once `n` leftovers have been taken from the front. */
  function Drop(groups: Groups, n: nat): (rest: Groups)
    ensures |rest| == |groups|
    ensures forall i :: 0 <= i < |groups| ==> |rest[i]| <= |groups[i]|
    ensures n == 0 ==> rest == groups
  {
    if groups == [] then []
    else if n <= |groups[0]| then [groups[0][n..]] + groups[1..]
    else [[]] + Drop(groups[1..], n - |groups[0]|)
  }

  function AfterPairs(groups: Groups, count: nat): Groups { Pairs(groups, count).1 }

  function AfterSingles(groups: Groups, count: nat): Groups {
    Singles(AfterPairs(groups, count), count - |Pairs(groups, count).0|).1
  }

  /** How many leftovers are taken. */
  function Missing(groups: Groups, count: nat): nat {
    count - |Pairs(groups, count).0| - |Singles(AfterPairs(groups, count), count - |Pairs(groups, count).0|).0|
  }

  /** What is not selected, group by group. */
  function Unselected(groups: Groups, count: nat): (rest: Groups)
    ensures |rest| == |groups|
  {
    Drop(AfterSingles(groups, count), Missing(groups, count))
  }

  lemma {:induction false} DropConserves(groups: Groups, n: nat)
    requires n <= |Flatten(groups)|
    ensures Flatten(groups)[..n] + Flatten(Drop(groups, n)) == Flatten(groups)
  {
    if groups != [] {
      var g, tail := groups[0], groups[1..];
      if n <= |g| {
        assert Drop(groups, n)[1..] == tail;
        assert Flatten(groups)[..n] == g[..n];
        assert g == g[..n] + g[n..];
      } else {
        DropConserves(tail, n - |g|);
        assert Drop(groups, n)[1..] == Drop(tail, n - |g|);
        assert Flatten(groups)[..n] == g + Flatten(tail)[..n - |g|];
      }
    }
  }

  /** Selected and unselected threads together are all threads. */
  lemma SelectionConserves(groups: Groups, count: nat)
    requires count <= |Flatten(groups)|
    ensures multiset(SelectFrom(groups, count)) + multiset(Flatten(Unselected(groups, count)))
         == multiset(Flatten(groups))
  {
    hide Flatten, Drop, Pairs, Singles;
    var pairs := Pairs(groups, count);
    var singles := Singles(pairs.1, count - |pairs.0|);
    var n := Missing(groups, count);
    PairsConserve(groups, count);
    SinglesConserve(pairs.1, count - |pairs.0|);
    DropConserves(singles.1, n);
    var flat := Flatten(singles.1);
    assert multiset(flat[..n]) + multiset(Flatten(Drop(singles.1, n))) == multiset(flat);
    assert SelectFrom(groups, count) == pairs.0 + singles.0 + flat[..n];
  }

  predicate Suffix(rest: seq<nat>, g: seq<nat>) { |rest| <= |g| && rest == g[|g| - |rest|..] }

  lemma SuffixOfSuffix(a: seq<nat>, b: seq<nat>, c: seq<nat>)
    requires Suffix(a, b) && Suffix(b, c)
    ensures Suffix(a, c)
  {
  }

  lemma {:induction false} DropLeavesSuffix(groups: Groups, n: nat, i: nat)
    requires i < |groups|
    ensures Suffix(Drop(groups, n)[i], groups[i])
  {
    if n > |groups[0]| && i > 0 {
      DropLeavesSuffix(groups[1..], n - |groups[0]|, i - 1);
    }
  }

  lemma UnselectedIsSuffix(groups: Groups, count: nat, i: nat)
    requires i < |groups|
    ensures Suffix(Unselected(groups, count)[i], groups[i])
  {
    hide Drop, Pairs, Singles;
    EachPairInOrder(groups, count, i);
    EachSingleInOrder(AfterPairs(groups, count), count - |Pairs(groups, count).0|, i);
    DropLeavesSuffix(AfterSingles(groups, count), Missing(groups, count), i);
    SuffixOfSuffix(AfterSingles(groups, count)[i], AfterPairs(groups, count)[i], groups[i]);
    SuffixOfSuffix(Unselected(groups, count)[i], AfterSingles(groups, count)[i], groups[i]);
  }

  // ---------- When the loops stop ----------

  /** The pairs loop only stops with budget for a pair when every core with two has given one. */
  lemma {:induction false} PairsExhaust(groups: Groups, budget: nat, i: nat)
    requires i < |groups| && |groups[i]| >= 2 && budget - |Pairs(groups, budget).0| >= 2
    ensures Pairs(groups, budget).1[i] == groups[i][2..]
  {
    if i > 0 { PairsExhaust(groups[1..], if |groups[0]| >= 2 then budget - 2 else budget, i - 1); }
  }

  /** The singles loop only stops with budget left when every non-empty core has given one. */
  lemma {:induction false} SinglesExhaust(groups: Groups, budget: nat, i: nat)
    requires i < |groups| && groups[i] != [] && budget > |Singles(groups, budget).0|
    ensures Singles(groups, budget).1[i] == groups[i][1..] && |Singles(groups, budget).0| >= 1
  {
    if i > 0 { SinglesExhaust(groups[1..], if groups[0] != [] then budget - 1 else budget, i - 1); }
  }

  // ---------- Threads taken per core ----------

  function Sizes(groups: Groups): (sizes: seq<nat>)
    ensures |sizes| == |groups| && forall i :: 0 <= i < |groups| ==> sizes[i] == |groups[i]|
  {
    seq(|groups|, i requires 0 <= i < |groups| => |groups[i]|)
  }

  /** How many threads of each core are among the chosen. */
  function Counts(groups: Groups, chosen: set<nat>): (counts: seq<nat>)
    ensures |counts| == |groups|
    ensures forall i :: 0 <= i < |groups| ==> counts[i] == |Elements(groups[i]) * chosen|
  {
    seq(|groups|, i requires 0 <= i < |groups| => |Elements(groups[i]) * chosen|)
  }

  lemma CountsTail(groups: Groups, chosen: set<nat>)
    requires groups != []
    ensures Counts(groups, chosen)[1..] == Counts(groups[1..], chosen) && Sizes(groups)[1..] == Sizes(groups[1..])
  {
  }

  lemma CountsWithin(groups: Groups, chosen: set<nat>)
    requires Ordered(groups)
    ensures CoreShares.Within(Counts(groups, chosen), Sizes(groups))
  {
    forall i | 0 <= i < |groups| ensures |Elements(groups[i]) * chosen| <= |groups[i]| {
      AscendingSize(groups[i]);
      SubsetSize(Elements(groups[i]) * chosen, Elements(groups[i]));
    }
  }

  lemma {:induction false} CompleteByCounts(groups: Groups, chosen: set<nat>)
    requires Ordered(groups)
    ensures CompleteCores(groups, chosen) == Complete(Sizes(groups), Counts(groups, chosen))
  {
    hide Ordered, Ascending;
    if groups != [] {
      OrderedTail(groups);
      CountsTail(groups, chosen);
      CompleteByCounts(groups[1..], chosen);
      var g := Elements(groups[0]);
      AscendingSize(groups[0]);
      SubsetSize(g * chosen, g);
      assert g <= chosen <==> g * chosen == g;
    }
  }

  lemma {:induction false} PairedByCounts(groups: Groups, chosen: set<nat>)
    ensures SmtSelection.Paired(groups, chosen) == CoreShares.Paired(Counts(groups, chosen))
    ensures PairCapacity(groups) == CoreShares.Paired(Sizes(groups))
  {
    if groups != [] {
      CountsTail(groups, chosen);
      PairedByCounts(groups[1..], chosen);
    }
  }

  lemma {:induction false} SumOfCounts(groups: Groups, chosen: set<nat>)
    requires Ordered(groups)
    ensures Sum(Counts(groups, chosen)) <= |chosen|
    ensures chosen <= Elements(Flatten(groups)) ==> Sum(Counts(groups, chosen)) == |chosen|
  {
    hide Ordered;
    if groups != [] {
      OrderedTail(groups);
      CountsTail(groups, chosen);
      var g := Elements(groups[0]);
      ChosenSplit(g, chosen);
      SumOfCounts(groups[1..], chosen - g);
      CountsIgnore(groups[1..], chosen, g);
      assert Flatten(groups) == groups[0] + Flatten(groups[1..]);
    }
  }

  lemma CountsIgnore(groups: Groups, chosen: set<nat>, extra: set<nat>)
    requires forall i :: 0 <= i < |groups| ==> Elements(groups[i]) !! extra
    ensures Counts(groups, chosen - extra) == Counts(groups, chosen)
  {
    forall i | 0 <= i < |groups| ensures Counts(groups, chosen - extra)[i] == Counts(groups, chosen)[i] {
      assert Elements(groups[i]) * (chosen - extra) == Elements(groups[i]) * chosen;
    }
  }

  // ---------- The selection, counted ----------

  lemma {:induction false} GroupsAreDistinct(groups: Groups)
    requires Ordered(groups)
    ensures multiset(Flatten(groups)) == multiset(Elements(Flatten(groups)))
  {
    hide Ordered, Ascending;
    if groups != [] {
      OrderedTail(groups);
      GroupsAreDistinct(groups[1..]);
      var g, rest := Elements(groups[0]), Elements(Flatten(groups[1..]));
      AscendingUnique(groups[0], Sorted(g));
      SortedMultiset(g);
      forall x | x in g ensures x !in Flatten(groups[1..]) {
        if x in Flatten(groups[1..]) { InSomeGroup(groups[1..], x); }
      }
      MultisetUnion(g, rest);
      assert Flatten(groups) == groups[0] + Flatten(groups[1..]);
      assert Elements(Flatten(groups)) == g + rest;
    }
  }

  lemma {:induction false} InSomeGroup(groups: Groups, x: nat)
    ensures x in Flatten(groups) <==> exists i :: 0 <= i < |groups| && x in groups[i]
  {
    if groups != [] {
      InSomeGroup(groups[1..], x);
      assert forall i :: 0 <= i < |groups| - 1 ==> groups[1..][i] == groups[i + 1];
      if i :| 0 <= i < |groups| && x in groups[i] {
        assert i > 0 ==> groups[1..][i - 1] == groups[i];
      }
    }
  }

  lemma SelectionSize(groups: Groups, count: nat)
    requires Ordered(groups) && count <= |Flatten(groups)|
    ensures var chosen := Elements(SelectFrom(groups, count));
            |chosen| == count && chosen <= Elements(Flatten(groups))
  {
    GroupsAreDistinct(groups);
    SelectFromExact(groups, count);
    DistinctElements(SelectFrom(groups, count), Elements(Flatten(groups)));
  }

  /** A thread of a group is selected exactly when it is not left in that group. */
  lemma SelectedOrLeft(groups: Groups, count: nat, i: nat, x: nat)
    requires Ordered(groups) && count <= |Flatten(groups)| && i < |groups| && x in groups[i]
    ensures x in SelectFrom(groups, count) <==> x !in Unselected(groups, count)[i]
  {
    hide SelectFrom, Unselected, Ascending;
    var left := Unselected(groups, count);
    SelectionConserves(groups, count);
    GroupsAreDistinct(groups);
    InSomeGroup(groups, x);
    InSomeGroup(left, x);
    assert multiset(Flatten(groups))[x] == 1;
    assert multiset(SelectFrom(groups, count))[x] + multiset(Flatten(left))[x] == 1;
    if j :| 0 <= j < |left| && x in left[j] {
      UnselectedIsSuffix(groups, count, j);
      assert x in Elements(groups[i]) && x in Elements(groups[j]);
      assert i == j;
    }
  }

  lemma SuffixCount(g: seq<nat>, rest: seq<nat>, chosen: set<nat>)
    requires Ascending(g) && Suffix(rest, g)
    requires forall x :: x in g ==> (x in chosen <==> x !in rest)
    ensures |Elements(g) * chosen| == |g| - |rest|
  {
    var front := g[..|g| - |rest|];
    assert g == front + rest;
    SplitElements(front, rest);
    AscendingSize(front);
    assert Elements(g) * chosen == Elements(front);
  }

  lemma CountOfSelection(groups: Groups, count: nat, i: nat)
    requires Ordered(groups) && count <= |Flatten(groups)| && i < |groups|
    ensures Counts(groups, Elements(SelectFrom(groups, count)))[i] == |groups[i]| - |Unselected(groups, count)[i]|
  {
    hide SelectFrom, Unselected;
    UnselectedIsSuffix(groups, count, i);
    forall x | x in groups[i]
      ensures x in Elements(SelectFrom(groups, count)) <==> x !in Unselected(groups, count)[i]
    {
      SelectedOrLeft(groups, count, i, x);
    }
    SuffixCount(groups[i], Unselected(groups, count)[i], Elements(SelectFrom(groups, count)));
  }

  /** What is taken of one core when leftovers are needed: everything the two loops can give. */
  lemma TakenWithLeftovers(groups: Groups, count: nat, i: nat)
    requires i < |groups| && Missing(groups, count) >= 1
    ensures |groups[i]| - |Unselected(groups, count)[i]| >= Min(|groups[i]|, 3)
  {
    hide Drop, Pairs, Singles;
    var budget := count - |Pairs(groups, count).0|;
    EachPairInOrder(groups, count, i);
    EachSingleInOrder(AfterPairs(groups, count), budget, i);
    if AfterPairs(groups, count)[i] != [] {
      SinglesExhaust(AfterPairs(groups, count), budget, i);
    }
    if |groups[i]| >= 2 && budget >= 2 {
      PairsExhaust(groups, count, i);
    }
  }

  /** How much of a core the first two loops take. */
  function ByLoops(groups: Groups, count: nat, i: nat): int
    requires i < |groups|
  {
    |groups[i]| - |AfterSingles(groups, count)[i]|
  }

  lemma TakenInOrder(groups: Groups, count: nat, i: nat, j: nat)
    requires i < j < |groups|
    ensures var ti, tj := ByLoops(groups, count, i), ByLoops(groups, count, j);
            && (|groups[i]| >= 2 && tj >= 1 ==> ti >= 1)
            && (|groups[i]| >= 2 && tj >= 2 ==> ti >= 2)
            && (|groups[i]| == 1 && tj >= 3 ==> ti == 1)
            && (|groups[i]| >= 3 && |groups[j]| == 1 && tj == 1 && ti >= 2 ==> ti >= 3)
            && ti <= 3 && tj <= 3
  {
    hide Pairs, Singles;
    PairsInOrder(groups, count, i, j);
    EachPairInOrder(groups, count, i);
    var middle, budget := AfterPairs(groups, count), count - |Pairs(groups, count).0|;
    SinglesInOrder(middle, budget, i, j);
    EachSingleInOrder(middle, budget, i);
  }

  lemma EachTaken(groups: Groups, count: nat, taken: seq<nat>)
    requires Ordered(groups) && count <= |Flatten(groups)|
    requires taken == Counts(groups, Elements(SelectFrom(groups, count)))
    ensures forall i :: 0 <= i < |groups| ==> TakenOf(groups, count, taken, i)
  {
    hide SelectFrom, Ordered, TakenOf;
    forall i | 0 <= i < |groups| ensures TakenOf(groups, count, taken, i) {
      TakenFacts(groups, count, taken, i);
    }
  }

  lemma EachStep(groups: Groups, count: nat, taken: seq<nat>)
    requires |taken| == |groups| && forall i :: 0 <= i < |groups| ==> TakenOf(groups, count, taken, i)
    ensures forall i, j :: 0 <= i < j < |groups| ==> PairsFirstAt(Sizes(groups), taken, i, j)
  {
    hide ByLoops, Missing;
    forall i, j | 0 <= i < j < |groups| ensures PairsFirstAt(Sizes(groups), taken, i, j) {
      assert TakenOf(groups, count, taken, i) && TakenOf(groups, count, taken, j);
      if Missing(groups, count) == 0 { TakenInOrder(groups, count, i, j); }
    }
  }

  lemma FourthIsLeftover(groups: Groups, count: nat, taken: seq<nat>, i: nat, j: nat)
    requires |taken| == |groups| && i < |groups| && j < |groups| && |groups[j]| == 1 && taken[i] >= 4
    requires TakenOf(groups, count, taken, i) && TakenOf(groups, count, taken, j)
    ensures taken[j] == 1
  {
    hide ByLoops, Missing;
    if Missing(groups, count) == 0 && i != j {
      if i < j { TakenInOrder(groups, count, i, j); } else { TakenInOrder(groups, count, j, i); }
    }
  }

  lemma EnoughPairs(groups: Groups, count: nat)
    requires Ordered(groups) && count <= |Flatten(groups)|
    ensures var taken := Counts(groups, Elements(SelectFrom(groups, count)));
            && CoreShares.Within(taken, Sizes(groups)) && Sum(taken) == count
            && CoreShares.Paired(taken) >= Min(count / 2, CoreShares.Paired(Sizes(groups)))
  {
    hide SelectFrom, Ordered, Elements, Counts;
    var chosen := Elements(SelectFrom(groups, count));
    SelectionSize(groups, count);
    SumOfCounts(groups, chosen);
    CountsWithin(groups, chosen);
    PairedByCounts(groups, chosen);
    PairsSelected(groups, count);
    PairsAttain(groups, count, chosen);
  }

  /** The selection, counted per core, follows the pairs-first rule. */
  lemma SelectionIsPairsFirst(groups: Groups, count: nat)
    requires Ordered(groups) && count <= |Flatten(groups)|
    ensures PairsFirst(Sizes(groups), Counts(groups, Elements(SelectFrom(groups, count))))
    ensures Sum(Counts(groups, Elements(SelectFrom(groups, count)))) == count
  {
    hide SelectFrom, Ordered, Elements, Counts, TakenOf, PairsFirstAt;
    var sizes, taken := Sizes(groups), Counts(groups, Elements(SelectFrom(groups, count)));
    EnoughPairs(groups, count);
    EachTaken(groups, count, taken);
    EachStep(groups, count, taken);
    StepsMakePairsFirst(sizes, taken);
    forall i, j | 0 <= i < |groups| && 0 <= j < |groups| && sizes[j] == 1 && taken[i] >= 4 ensures taken[j] == 1 {
      FourthIsLeftover(groups, count, taken, i, j);
    }
  }

  ghost predicate PairsFirstAt(sizes: seq<nat>, taken: seq<nat>, i: nat, j: nat)
    requires i < |sizes| == |taken| && j < |sizes|
  {
    && (sizes[i] >= 2 && taken[j] >= 1 ==> taken[i] >= 1)
    && (sizes[i] >= 2 && taken[j] >= 2 ==> taken[i] >= 2)
    && (sizes[i] == 1 && taken[j] >= 3 ==> taken[i] == 1)
    && (sizes[i] >= 3 && sizes[j] == 1 && taken[j] == 1 && taken[i] >= 2 ==> taken[i] >= 3)
  }

  lemma StepsMakePairsFirst(sizes: seq<nat>, taken: seq<nat>)
    requires |sizes| == |taken| && forall i, j :: 0 <= i < j < |sizes| ==> PairsFirstAt(sizes, taken, i, j)
    ensures forall i, j :: 0 <= i < j < |sizes| && sizes[i] >= 2 && taken[j] >= 1 ==> taken[i] >= 1
    ensures forall i, j :: 0 <= i < j < |sizes| && sizes[i] >= 2 && taken[j] >= 2 ==> taken[i] >= 2
    ensures forall i, j :: 0 <= i < j < |sizes| && sizes[i] == 1 && taken[j] >= 3 ==> taken[i] == 1
    ensures forall i, j :: 0 <= i < j < |sizes| && sizes[i] >= 3 && sizes[j] == 1 && taken[j] == 1 && taken[i] >= 2
              ==> taken[i] >= 3
  {
    forall i, j | 0 <= i < j < |sizes|
      ensures sizes[i] >= 2 && taken[j] >= 1 ==> taken[i] >= 1
      ensures sizes[i] >= 2 && taken[j] >= 2 ==> taken[i] >= 2
      ensures sizes[i] == 1 && taken[j] >= 3 ==> taken[i] == 1
      ensures sizes[i] >= 3 && sizes[j] == 1 && taken[j] == 1 && taken[i] >= 2 ==> taken[i] >= 3
    {
      assert PairsFirstAt(sizes, taken, i, j);
    }
  }

  ghost predicate TakenOf(groups: Groups, count: nat, taken: seq<nat>, i: nat)
    requires i < |groups| == |taken|
  {
    && taken[i] <= |groups[i]|
    && if Missing(groups, count) >= 1 then taken[i] >= Min(|groups[i]|, 3) else taken[i] == ByLoops(groups, count, i)
  }

  lemma TakenFacts(groups: Groups, count: nat, taken: seq<nat>, i: nat)
    requires Ordered(groups) && count <= |Flatten(groups)| && i < |groups|
    requires taken == Counts(groups, Elements(SelectFrom(groups, count)))
    ensures TakenOf(groups, count, taken, i)
  {
    CountOfSelection(groups, count, i);
    hide SelectFrom, Ordered, Pairs, Singles, AfterSingles;
    if Missing(groups, count) >= 1 { TakenWithLeftovers(groups, count, i); }
  }

  lemma PairsSelected(groups: Groups, count: nat)
    ensures Elements(Pairs(groups, count).0) <= Elements(SelectFrom(groups, count))
  {
    hide Pairs, Singles, Flatten;
  }

  // ---------- Any selection, counted ----------

  /** The first `counts[i]` threads of each core. */
  function Pick(groups: Groups, counts: seq<nat>): set<nat>
    requires CoreShares.Within(counts, Sizes(groups))
  {
    if groups == [] then {} else
      assert Sizes(groups)[1..] == Sizes(groups[1..]);
      Elements(groups[0][..counts[0]]) + Pick(groups[1..], counts[1..])
  }

  lemma {:induction false} PickIsInGroups(groups: Groups, counts: seq<nat>)
    requires CoreShares.Within(counts, Sizes(groups))
    ensures Pick(groups, counts) <= Elements(Flatten(groups))
  {
    if groups != [] {
      assert Sizes(groups)[1..] == Sizes(groups[1..]);
      PickIsInGroups(groups[1..], counts[1..]);
      assert Flatten(groups) == groups[0] + Flatten(groups[1..]);
    }
  }

  lemma PrefixOfGroup(g: seq<nat>, n: nat)
    requires Ascending(g) && n <= |g|
    ensures |Elements(g[..n])| == n && Elements(g[..n]) <= Elements(g)
  {
    AscendingSize(g[..n]);
  }

  lemma PickTail(groups: Groups, counts: seq<nat>)
    requires groups != [] && CoreShares.Within(counts, Sizes(groups))
    ensures CoreShares.Within(counts[1..], Sizes(groups[1..]))
    ensures Pick(groups, counts) == Elements(groups[0][..counts[0]]) + Pick(groups[1..], counts[1..])
  {
    assert Sizes(groups)[1..] == Sizes(groups[1..]);
  }

  lemma PickApart(groups: Groups, counts: seq<nat>, g: set<nat>)
    requires CoreShares.Within(counts, Sizes(groups))
    requires forall i :: 0 <= i < |groups| ==> Elements(groups[i]) !! g
    ensures Pick(groups, counts) !! g
  {
    PickIsInGroups(groups, counts);
    forall x | x in Elements(Flatten(groups)) ensures x !in g {
      InSomeGroup(groups, x);
      var i :| 0 <= i < |groups| && x in groups[i];
      assert x in Elements(groups[i]);
    }
  }

  lemma CountsCons(groups: Groups, first: set<nat>, rest: set<nat>)
    requires groups != [] && first <= Elements(groups[0]) && rest !! Elements(groups[0])
    requires forall i :: 0 <= i < |groups| - 1 ==> Elements(groups[1..][i]) !! Elements(groups[0])
    ensures Counts(groups, first + rest) == [|first|] + Counts(groups[1..], rest)
    ensures |first + rest| == |first| + |rest|
  {
    hide Elements, Counts;
    var both := first + rest;
    CountsTail(groups, both);
    CountsIgnore(groups[1..], both, first);
    InFirst(Elements(groups[0]), first, rest);
    assert Counts(groups, both) == [Counts(groups, both)[0]] + Counts(groups, both)[1..];
  }

  lemma InFirst(g: set<nat>, first: set<nat>, rest: set<nat>)
    requires first <= g && rest !! g
    ensures g * (first + rest) == first && (first + rest) - first == rest
    ensures |first + rest| == |first| + |rest|
  {
    DisjointSize(first, rest);
  }

  lemma {:induction false} PickCounts(groups: Groups, counts: seq<nat>)
    requires Ordered(groups) && CoreShares.Within(counts, Sizes(groups))
    ensures Counts(groups, Pick(groups, counts)) == counts && |Pick(groups, counts)| == Sum(counts)
  {
    hide Ordered, Ascending, Elements, Pick, CoreShares.Within, Counts;
    if groups == [] {
      NothingPicked(groups, counts);
    } else {
      LengthsAgree(groups, counts);
      PickTail(groups, counts);
      OrderedTail(groups);
      PrefixOfGroup(groups[0], counts[0]);
      PickCounts(groups[1..], counts[1..]);
      PickApart(groups[1..], counts[1..], Elements(groups[0]));
      CountsCons(groups, Elements(groups[0][..counts[0]]), Pick(groups[1..], counts[1..]));
    }
  }

  lemma LengthsAgree(groups: Groups, counts: seq<nat>)
    requires CoreShares.Within(counts, Sizes(groups)) && groups != []
    ensures counts != [] && counts[0] <= |groups[0]|
  {
  }

  lemma NothingPicked(groups: Groups, counts: seq<nat>)
    requires groups == [] && CoreShares.Within(counts, Sizes(groups))
    ensures Pick(groups, counts) == {} && counts == []
  {
  }

  // ---------- The theorem ----------

  /** No set of as many CPUs completes more cores than the selection does. */
  ghost predicate Optimal(groups: Groups, count: nat) {
    forall other: set<nat> :: |other| == count ==>
      CompleteCores(groups, other) <= CompleteCores(groups, Elements(SelectFrom(groups, count)))
  }

  /** Pairs-first completes the most cores for every request exactly if at most one core has
      more than two candidate threads, that core comes after every core with two, and single
      threads only occur if it has exactly three and comes before all of them. */
  lemma OptimalIffOrderly(groups: Groups)
    requires Ordered(groups)
    ensures (forall count: nat :: count <= |Flatten(groups)| ==> Optimal(groups, count)) <==> Orderly(Sizes(groups))
  {
    hide Orderly, PairsFirst, CompleteCores, Optimal, Ordered;
    if Orderly(Sizes(groups)) {
      forall count: nat | count <= |Flatten(groups)| ensures Optimal(groups, count) {
        OrderlyIsOptimal(groups, count);
      }
    } else {
      assert forall i :: 0 <= i < |groups| ==> |groups[i]| >= 1 by { GroupsNotEmpty(groups); }
      var counts := OrderlyNeeded(Sizes(groups));
      NotOptimal(groups, counts);
    }
  }

  lemma GroupsNotEmpty(groups: Groups)
    requires Ordered(groups)
    ensures forall i :: 0 <= i < |groups| ==> |groups[i]| >= 1
  {
  }

  lemma OrderlyIsOptimal(groups: Groups, count: nat)
    requires Ordered(groups) && Orderly(Sizes(groups)) && count <= |Flatten(groups)|
    ensures Optimal(groups, count)
  {
    hide Orderly, PairsFirst, CompleteCores, Ordered, SelectFrom;
    var chosen := Elements(SelectFrom(groups, count));
    SelectionIsPairsFirst(groups, count);
    CompleteByCounts(groups, chosen);
    forall other: set<nat> | |other| == count ensures CompleteCores(groups, other) <= CompleteCores(groups, chosen) {
      CountsWithin(groups, other);
      SumOfCounts(groups, other);
      CompleteByCounts(groups, other);
      OrderlySuffices(Sizes(groups), Counts(groups, chosen), Counts(groups, other));
    }
  }

  lemma NotOptimal(groups: Groups, counts: seq<nat>)
    requires Ordered(groups) && Beats(Sizes(groups), counts)
    ensures Sum(counts) <= |Flatten(groups)| && !Optimal(groups, Sum(counts))
  {
    hide PairsFirst, CompleteCores, Ordered, SelectFrom;
    var other, count := Pick(groups, counts), Sum(counts);
    PickCounts(groups, counts);
    PickIsInGroups(groups, counts);
    GroupsAreDistinct(groups);
    assert |Flatten(groups)| == |multiset(Elements(Flatten(groups)))| == |Elements(Flatten(groups))|;
    SubsetSize(other, Elements(Flatten(groups)));
    SelectionIsPairsFirst(groups, count);
    CompleteByCounts(groups, other);
    CompleteByCounts(groups, Elements(SelectFrom(groups, count)));
  }

  /** The selector itself: whether it completes the most cores for every request can be read off
      the group sizes before any request is made. */
  lemma SelectIsOptimalIffOrderly(candidates: set<nat>, siblings: Siblings)
    ensures (forall count: nat, other: set<nat> :: |other| == count <= |candidates| ==>
               CompleteCores(GroupsOf(candidates, siblings), other)
               <= CompleteCores(GroupsOf(candidates, siblings), Select(candidates, siblings, count)))
            <==> Orderly(Sizes(GroupsOf(candidates, siblings)))
  {
    hide CompleteCores, Orderly, Ordered, SelectFrom, GroupsFrom;
    var groups := GroupsOf(candidates, siblings);
    GroupsOrdered(Sorted(candidates), siblings, candidates);
    GroupsPartition(Sorted(candidates), siblings, candidates);
    assert |Flatten(groups)| == |multiset(candidates)| == |candidates|;
    OptimalIffOrderly(groups);
    if forall count: nat, other: set<nat> :: |other| == count <= |candidates| ==>
         CompleteCores(groups, other) <= CompleteCores(groups, Select(candidates, siblings, count))
    {
      forall count: nat | count <= |candidates| ensures Optimal(groups, count) {
        assert Select(candidates, siblings, count) == Elements(SelectFrom(groups, count));
      }
    } else {
      var count: nat, other: set<nat> :| |other| == count <= |candidates|
        && !(CompleteCores(groups, other) <= CompleteCores(groups, Select(candidates, siblings, count)));
      assert !Optimal(groups, count);
    }
  }

  // ---------- A machine with four threads per core ----------

  lemma {:induction false} SkipGrouped(order: seq<nat>, n: nat, siblings: Siblings, ungrouped: set<nat>)
    requires n <= |order| && forall i :: 0 <= i < n ==> order[i] !in ungrouped
    ensures GroupsFrom(order, siblings, ungrouped) == GroupsFrom(order[n..], siblings, ungrouped)
  {
    if n > 0 {
      SkipGrouped(order[1..], n - 1, siblings, ungrouped);
      assert order[1..][n - 1..] == order[n..];
    }
  }

  lemma GroupOfRun(low: seq<nat>, high: seq<nat>, siblings: Siblings)
    requires low != [] && Ascending(low + high) && Core(low[0], siblings) == Elements(low)
    ensures GroupsFrom(low + high, siblings, Elements(low + high)) == [low] + GroupsFrom(high, siblings, Elements(high))
  {
    hide GroupsFrom, Ascending, Elements, Core, Sorted;
    SplitElements(low, high);
    RunTaken(low, high, siblings);
    var order, n := low + high, |low|;
    AscendingUnique(Sorted(Elements(low)), low);
    GroupFirst(order, siblings, Elements(order));
    SkipGrouped(order[1..], n - 1, siblings, Elements(high));
    assert order[1..][n - 1..] == high;
  }

  lemma GroupFirst(order: seq<nat>, siblings: Siblings, ungrouped: set<nat>)
    requires order != [] && order[0] in ungrouped
    ensures var members := Members(order[0], siblings, ungrouped);
            GroupsFrom(order, siblings, ungrouped)
            == [Sorted(members)] + GroupsFrom(order[1..], siblings, ungrouped - members)
  {
    hide Sorted, Members;
  }

  lemma RunTaken(low: seq<nat>, high: seq<nat>, siblings: Siblings)
    requires low != [] && Ascending(low + high) && Core(low[0], siblings) == Elements(low)
    ensures var order := low + high;
            && order[0] in Elements(order) && Members(order[0], siblings, Elements(order)) == Elements(low)
            && Elements(order) - Elements(low) == Elements(high)
            && forall i :: 0 <= i < |low| - 1 ==> order[1..][i] !in Elements(high)
  {
    hide Core;
    SplitElements(low, high);
    assert (low + high)[0] == low[0];
    forall i | 0 <= i < |low| - 1 ensures (low + high)[1..][i] !in Elements(high) {
      assert (low + high)[1..][i] == low[i + 1];
    }
  }

  /** Two cores, one after the other in CPU order, are two groups. */
  lemma GroupsOfTwoCores(a: seq<nat>, b: seq<nat>, siblings: Siblings)
    requires a != [] && b != [] && Ascending(a + b)
    requires Core(a[0], siblings) == Elements(a) && Core(b[0], siblings) == Elements(b)
    ensures GroupsOf(Elements(a + b), siblings) == [a, b]
  {
    hide Core, Elements, Ascending;
    SplitElements(a, b);
    AscendingUnique(Sorted(Elements(a + b)), a + b);
    GroupOfRun(a, b, siblings);
    assert b + [] == b;
    GroupOfRun(b, [], siblings);
    assert GroupsFrom([], siblings, Elements([])) == [];
  }

  lemma CompleteOfTwo(a: seq<nat>, b: seq<nat>, chosen: set<nat>)
    requires |a| >= 2 && |b| >= 2
    ensures CompleteCores([a, b], chosen)
         == (if Elements(a) <= chosen then 1 else 0) + (if Elements(b) <= chosen then 1 else 0)
  {
    hide Elements;
    assert [a, b][1..] == [b] && [b][1..] == [];
    assert CompleteCores([b], chosen) == if Elements(b) <= chosen then 1 else 0;
  }

  lemma HalvesOfTwo(a: seq<nat>, b: seq<nat>)
    requires |a| >= 4 && |b| >= 4
    ensures SelectFrom([a, b], 4) == a[..2] + b[..2]
  {
    assert [a, b][1..] == [b] && [b][1..] == [];
    assert Pairs([b], 2).0 == b[..2] + [];
    assert Pairs([a, b], 4).0 == a[..2] + b[..2];
  }

  const LOWER: seq<nat> := [0, 1, 2, 3]

  const UPPER: seq<nat> := [4, 5, 6, 7]

  /** Two cores of four threads. */
  function FourByTwo(): Siblings {
    map cpu | cpu in Elements(LOWER + UPPER) :: if cpu in LOWER then Elements(LOWER) else Elements(UPPER)
  }

  lemma FourElements(s: seq<nat>)
    requires |s| == 4
    ensures Elements(s) == {s[0], s[1], s[2], s[3]}
  {
  }

  lemma FourByTwoFacts()
    ensures Ascending(LOWER + UPPER) && Elements(LOWER + UPPER) == {0, 1, 2, 3, 4, 5, 6, 7}
    ensures Core(LOWER[0], FourByTwo()) == Elements(LOWER) == {0, 1, 2, 3}
    ensures Core(UPPER[0], FourByTwo()) == Elements(UPPER) == {4, 5, 6, 7}
    ensures Elements(LOWER[..2] + UPPER[..2]) == {0, 1, 4, 5}
  {
    FourElements(LOWER);
    FourElements(UPPER);
    FourElements(LOWER[..2] + UPPER[..2]);
    SplitTwo(LOWER, UPPER);
    assert forall x :: x in LOWER <==> x in Elements(LOWER);
    assert forall x :: x in UPPER <==> x in Elements(UPPER);
    hide Elements;
  }

  lemma SplitTwo(a: seq<nat>, b: seq<nat>)
    ensures Elements(a + b) == Elements(a) + Elements(b)
  {
  }

  /** With four threads per core a request for one core's worth of CPUs gets two halves, although
      a whole core is free. */
  lemma FourThreadsPerCore()
    ensures var cpus: set<nat> := {0, 1, 2, 3, 4, 5, 6, 7};
            var groups, chosen := GroupsOf(cpus, FourByTwo()), Select(cpus, FourByTwo(), 4);
            && chosen == {0, 1, 4, 5} && CompleteCores(groups, chosen) == 0
            && CompleteCores(groups, {0, 1, 2, 3}) == 1
  {
    hide GroupsOf, SelectFrom, CompleteCores, Elements, Ascending, FourByTwo, Core;
    FourByTwoFacts();
    GroupsOfTwoCores(LOWER, UPPER, FourByTwo());
    HalvesOfTwo(LOWER, UPPER);
    CompleteOfTwo(LOWER, UPPER, {0, 1, 4, 5});
    CompleteOfTwo(LOWER, UPPER, {0, 1, 2, 3});
    var half: set<nat>, whole: set<nat> := {0, 1, 4, 5}, {0, 1, 2, 3};
    assert 2 in Elements(LOWER) && 2 !in half && 6 in Elements(UPPER) && 6 !in half && 6 !in whole;
  }
}

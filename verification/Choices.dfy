/** Which CPUs a granted request hands out, judged by its reply. */
module Choices {
  import opened SortedSets
  import opened SmtSelection
  import opened CoreShares
  import opened CoreCompletion
  import opened Ledger
  import opened Requests
  import opened Guarantees
  import opened Conditions

  /** No free CPU below a chosen one was left out. */
  ghost predicate LowestOf(free: set<nat>, chosen: set<nat>) {
    chosen <= free && forall x, y :: x in chosen && y in free - chosen ==> x < y
  }

  /** No equally large set has two threads on more cores. */
  ghost predicate MostPaired(cores: Groups, chosen: set<nat>) {
    forall other: set<nat> :: |other| == |chosen| ==> SmtSelection.Paired(cores, other) <= SmtSelection.Paired(cores, chosen)
  }

  /** No equally large set completes more cores. */
  ghost predicate MostComplete(cores: Groups, chosen: set<nat>) {
    forall other: set<nat> :: |other| == |chosen| ==> CompleteCores(cores, other) <= CompleteCores(cores, chosen)
  }

  /** No core has more than two free threads, or the sizes allow completing the most cores anyway. */
  ghost predicate Completable(cores: Groups) {
    (forall i :: 0 <= i < |cores| ==> |cores[i]| <= 2) || Orderly(Sizes(cores))
  }

  /** The SMT-aware choice: among all equally large sets it has two threads on the most cores; where
      the core sizes allow it, and always with at most two free threads per core, it completes the
      most cores; and without siblings it is the lowest. */
  ghost predicate SmtBest(free: set<nat>, siblings: Siblings, chosen: set<nat>) {
    && chosen <= free
    && MostPaired(GroupsOf(free, siblings), chosen)
    && (Completable(GroupsOf(free, siblings)) ==> MostComplete(GroupsOf(free, siblings), chosen))
    && (NoSiblings(free, siblings) ==> LowestOf(free, chosen))
  }

  lemma SelectPairsMost(free: set<nat>, siblings: Siblings, count: nat)
    requires count <= |free|
    ensures MostPaired(GroupsOf(free, siblings), Select(free, siblings, count))
  {
    hide SmtSelection.Paired, GroupsOf, Select;
    SelectExact(free, siblings, count);
    forall other: set<nat> | |other| == count
      ensures SmtSelection.Paired(GroupsOf(free, siblings), other)
           <= SmtSelection.Paired(GroupsOf(free, siblings), Select(free, siblings, count))
    {
      SelectMaximizesPairs(free, siblings, count, other);
    }
  }

  lemma SelectCompletesMost(free: set<nat>, siblings: Siblings, count: nat)
    requires count <= |free| && Completable(GroupsOf(free, siblings))
    ensures MostComplete(GroupsOf(free, siblings), Select(free, siblings, count))
  {
    hide CompleteCores, Orderly, GroupsOf, SelectFrom, Optimal, Ordered;
    SelectExact(free, siblings, count);
    SmallIsOrderly(GroupsOf(free, siblings));
    OrderlyGroups(free, siblings);
    OrderlyIsOptimal(GroupsOf(free, siblings), count);
    CompletesMost(GroupsOf(free, siblings), count);
  }

  lemma SelectIsBest(free: set<nat>, siblings: Siblings, count: nat)
    requires count <= |free|
    ensures |Select(free, siblings, count)| == count && SmtBest(free, siblings, Select(free, siblings, count))
  {
    hide MostPaired, MostComplete, Completable, NoSiblings, GroupsOf, Select, Lowest;
    SelectExact(free, siblings, count);
    SelectPairsMost(free, siblings, count);
    if Completable(GroupsOf(free, siblings)) {
      SelectCompletesMost(free, siblings, count);
    }
    if NoSiblings(free, siblings) {
      SelectWithoutSiblings(free, siblings, count);
      LowestIsLowest(free, count);
    }
  }

  lemma SmallIsOrderly(cores: Groups)
    ensures (forall i :: 0 <= i < |cores| ==> |cores[i]| <= 2) ==> Orderly(Sizes(cores))
  {
  }

  lemma OrderlyGroups(free: set<nat>, siblings: Siblings)
    ensures Ordered(GroupsOf(free, siblings)) && |Flatten(GroupsOf(free, siblings))| == |free|
  {
    hide Ordered, Flatten, GroupsFrom;
    GroupsOrdered(Sorted(free), siblings, free);
    GroupsPartition(Sorted(free), siblings, free);
    assert |multiset(Flatten(GroupsOf(free, siblings)))| == |multiset(free)| == |free|;
  }

  lemma CompletesMost(cores: Groups, count: nat)
    requires Optimal(cores, count)
    ensures forall other: set<nat> :: |other| == count ==>
              CompleteCores(cores, other) <= CompleteCores(cores, Elements(SelectFrom(cores, count)))
  {
  }

  /** A protected service first keeps its own free CPUs: all of them and the SMT-aware best of the
      rest when it grows, the lowest of them when it shrinks. */
  ghost predicate StableBest(free: set<nat>, own: set<nat>, siblings: Siblings, chosen: set<nat>) {
    && (|chosen| >= |own| ==> own <= chosen && SmtBest(free - own, siblings, chosen - own))
    && (|chosen| <= |own| ==> LowestOf(own, chosen))
  }

  lemma StableIsBest(owned: set<nat>, free: set<nat>, siblings: Siblings, count: nat)
    requires count <= |free|
    ensures |SelectStable(owned, free, siblings, count)| == count
    ensures StableBest(free, owned * free, siblings, SelectStable(owned, free, siblings, count))
  {
    hide Select, SmtBest, Lowest;
    var own, chosen := owned * free, SelectStable(owned, free, siblings, count);
    SelectStableExact(owned, free, siblings, count);
    SubsetSize(own, free);
    if count <= |own| {
      LowestIsLowest(own, count);
      if count == |own| {
        LowestAll(own);
        SelectIsBest(free - own, siblings, 0);
        NothingSelected(free - own, siblings);
        assert chosen - own == {};
      }
    } else {
      SelectIsBest(free - own, siblings, count - |own|);
      SelectExact(free - own, siblings, count - |own|);
      assert chosen - own == Select(free - own, siblings, count - |own|);
    }
  }

  lemma NothingSelected(free: set<nat>, siblings: Siblings)
    ensures Select(free, siblings, 0) == {}
  {
    SelectExact(free, siblings, 0);
  }

  // ---------- Replies ----------

  /** A granted NUMA request hands out exactly as many free CPUs of the node as asked for: the
      SMT-aware best for a legacy service, own CPUs first for a protected one. */
  lemma NumaReplyIsBest(request: Request, host: Host, book: Book)
    requires WellFormed(book) && request.AllocateNuma? && !Releases(request) && Execute(request, host, book).Ok?
    ensures NodeKnown(request, host)
    ensures var free, granted := FreeInNode(request, host, book), Execute(request, host, book).value.reply.granted;
            && granted <= free && |granted| == request.count
            && match Acting(request, book)
               case Legacy => SmtBest(free, host.siblings, granted)
               case NonPreemptive => StableBest(free, Owned(book, request.service) * free, host.siblings, granted)
  {
    hide Execute, WellFormed, MayAsk, FreeInNode, Acting, SmtBest, StableBest, Select, SelectStable, Owned,
      ConfirmedOnline;
    NumaGrantIff(request, host, book);
    var free := FreeInNode(request, host, book);
    NumaSelectionExact(book, request.service, free, request.count, Acting(request, book), host.siblings);
    match Acting(request, book)
    case Legacy => SelectIsBest(free, host.siblings, request.count);
    case NonPreemptive => StableIsBest(Owned(book, request.service), free, host.siblings, request.count);
  }

  /** A granted ordinary or percentage request hands out the wanted number of free CPUs: the lowest
      for a legacy service, own CPUs first for a protected one. */
  lemma CoresReplyIsBest(request: Request, host: Host, book: Book)
    requires !request.AllocateNuma? && !Releases(request) && Execute(request, host, book).Ok?
    ensures var free, granted := Free(request, host, book), Execute(request, host, book).value.reply.granted;
            && granted <= free && |granted| == Wanted(request, |Usable(host, request.pool)|, |free|)
            && match Acting(request, book)
               case Legacy => LowestOf(free, granted)
               case NonPreemptive => StableBest(free, Owned(book, request.service) * free, host.siblings, granted)
  {
    hide Execute, MayAsk, Free, Usable, Acting, Wanted, StableBest, SelectStable, Owned, ConfirmedOnline, Lowest;
    CountGrantIff(request, host, book);
    var free := Free(request, host, book);
    var wanted := Wanted(request, |Usable(host, request.pool)|, |free|);
    CountSelectionExact(book, request.service, free, wanted, Acting(request, book), host.siblings);
    match Acting(request, book)
    case Legacy => LowestIsLowest(free, wanted);
    case NonPreemptive => StableIsBest(Owned(book, request.service), free, host.siblings, wanted);
  }
}

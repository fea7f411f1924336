/** How many threads of each core a selection takes, as plain numbers: `sizes` are the candidate
    threads per core in group order, `taken` the selected ones. When does taking pairs first
    complete as many cores as possible? */
module CoreShares {

  function Sum(taken: seq<nat>): nat {
    if taken == [] then 0 else taken[0] + Sum(taken[1..])
  }

  function Min(a: nat, b: nat): nat { if a <= b then a else b }

  /** Cores with at least two threads taken. */
  function Paired(taken: seq<nat>): nat {
    if taken == [] then 0 else (if taken[0] >= 2 then 1 else 0) + Paired(taken[1..])
  }

  predicate Whole(size: nat, taken: nat) { size >= 2 && taken == size }

  /** Complete cores: those with at least two candidate threads, all of them taken. */
  function Complete(sizes: seq<nat>, taken: seq<nat>): nat
    requires |sizes| == |taken|
  {
    if sizes == [] then 0 else (if Whole(sizes[0], taken[0]) then 1 else 0) + Complete(sizes[1..], taken[1..])
  }

  predicate Within(taken: seq<nat>, sizes: seq<nat>) {
    |taken| == |sizes| && forall i :: 0 <= i < |taken| ==> taken[i] <= sizes[i]
  }

  /** The condition on the groups: at most one core has more than two threads, it comes after
      every core with two, and single threads only exist if it has three and comes before them. */
  ghost predicate Orderly(sizes: seq<nat>) {
    (forall i :: 0 <= i < |sizes| ==> sizes[i] <= 2) || exists big :: OrderlyAround(sizes, big)
  }

  ghost predicate OrderlyAround(sizes: seq<nat>, big: int) {
    && 0 <= big < |sizes| && sizes[big] > 2
    && (forall i :: 0 <= i < |sizes| && i != big ==> sizes[i] <= 2)
    && (forall i :: 0 <= i < |sizes| && sizes[i] == 2 ==> i < big)
    && ((forall i :: 0 <= i < |sizes| ==> sizes[i] != 1)
        || (sizes[big] == 3 && forall i :: 0 <= i < |sizes| && sizes[i] == 1 ==> big < i))
  }

  /** What pairs, then singles, then leftovers guarantee about the threads taken per core. */
  ghost predicate PairsFirst(sizes: seq<nat>, taken: seq<nat>) {
    && Within(taken, sizes)
    && Paired(taken) >= Min(Sum(taken) / 2, Paired(sizes))
    && (forall i, j :: 0 <= i < j < |sizes| && sizes[i] >= 2 && taken[j] >= 1 ==> taken[i] >= 1)
    && (forall i, j :: 0 <= i < j < |sizes| && sizes[i] >= 2 && taken[j] >= 2 ==> taken[i] >= 2)
    && (forall i, j :: 0 <= i < j < |sizes| && sizes[i] == 1 && taken[j] >= 3 ==> taken[i] == 1)
    && (forall i, j :: 0 <= i < |sizes| && 0 <= j < |sizes| && sizes[j] == 1 && taken[i] >= 4 ==> taken[j] == 1)
    && (forall i, j :: 0 <= i < j < |sizes| && sizes[i] >= 3 && sizes[j] == 1 && taken[j] == 1 && taken[i] >= 2
          ==> taken[i] >= 3)
  }

  // ---------- Sums and counts ----------

  lemma {:induction false} SumMonotone(a: seq<nat>, b: seq<nat>)
    requires Within(a, b)
    ensures Sum(a) <= Sum(b)
  {
    if a != [] { SumMonotone(a[1..], b[1..]); }
  }

  lemma {:induction false} SumStrict(a: seq<nat>, b: seq<nat>, k: nat)
    requires Within(a, b) && k < |a| && a[k] < b[k]
    ensures Sum(a) < Sum(b)
  {
    if k == 0 { SumMonotone(a[1..], b[1..]); } else { SumStrict(a[1..], b[1..], k - 1); }
  }

  lemma {:induction false} SumUpdate(a: seq<nat>, k: nat, v: nat)
    requires k < |a|
    ensures Sum(a[k := v]) + a[k] == Sum(a) + v
    ensures Paired(a[k := v]) + (if a[k] >= 2 then 1 else 0) == Paired(a) + (if v >= 2 then 1 else 0)
  {
    if k == 0 {
      assert a[k := v][1..] == a[1..];
    } else {
      assert a[k := v][1..] == a[1..][k - 1 := v];
      SumUpdate(a[1..], k - 1, v);
    }
  }

  /** Each pair costs two threads, and a larger share costs what it has beyond two. */
  lemma {:induction false} SumCoversPairs(taken: seq<nat>, k: nat)
    requires k < |taken| ==> taken[k] >= 2
    ensures Sum(taken) >= 2 * Paired(taken) + if k < |taken| then taken[k] - 2 else 0
  {
    if taken != [] {
      SumCoversPairs(taken[1..], if k == 0 then |taken| - 1 else k - 1);
    }
  }

  lemma {:induction false} PairedMonotone(a: seq<nat>, b: seq<nat>)
    requires Within(a, b)
    ensures Paired(a) <= Paired(b)
  {
    if a != [] { PairedMonotone(a[1..], b[1..]); }
  }

  lemma {:induction false} CompleteBound(sizes: seq<nat>, taken: seq<nat>)
    requires Within(taken, sizes)
    ensures Complete(sizes, taken) <= Paired(taken)
    ensures (forall i :: 0 <= i < |taken| && taken[i] >= 2 ==> taken[i] == sizes[i]) ==>
              Complete(sizes, taken) == Paired(taken)
  {
    if sizes != [] {
      CompleteBound(sizes[1..], taken[1..]);
      assert forall i :: 0 < i < |taken| ==> taken[i] == taken[1..][i - 1] && sizes[i] == sizes[1..][i - 1];
    }
  }

  /** Selections compare by the cores they complete. */
  lemma {:induction false} CompleteCompares(sizes: seq<nat>, a: seq<nat>, b: seq<nat>, k: nat)
    requires |a| == |b| == |sizes|
    requires forall i :: 0 <= i < |a| && Whole(sizes[i], a[i]) ==> Whole(sizes[i], b[i])
    ensures Complete(sizes, a) <= Complete(sizes, b)
    ensures k < |a| && Whole(sizes[k], b[k]) && !Whole(sizes[k], a[k]) ==> Complete(sizes, a) < Complete(sizes, b)
  {
    if sizes != [] {
      assert forall i :: 0 <= i < |a| - 1 ==>
          a[1..][i] == a[i + 1] && b[1..][i] == b[i + 1] && sizes[1..][i] == sizes[i + 1];
      CompleteCompares(sizes[1..], a[1..], b[1..], if k == 0 then |a| else k - 1);
    }
  }

  /** Missing one core that could be completed leaves one complete core fewer. */
  lemma {:induction false} CompleteExcept(sizes: seq<nat>, taken: seq<nat>, k: nat)
    requires |taken| == |sizes|
    requires forall i :: 0 <= i < |sizes| && i != k && sizes[i] >= 2 ==> taken[i] == sizes[i]
    ensures Complete(sizes, taken) >= Paired(sizes) - 1
    ensures k >= |sizes| ==> Complete(sizes, taken) == Paired(sizes)
  {
    if sizes != [] {
      assert forall i :: 0 <= i < |sizes| - 1 ==> taken[1..][i] == taken[i + 1] && sizes[1..][i] == sizes[i + 1];
      CompleteExcept(sizes[1..], taken[1..], if k == 0 then |sizes| else k - 1);
    }
  }

  lemma {:induction false} AllComplete(sizes: seq<nat>, taken: seq<nat>, k: nat)
    requires |taken| == |sizes| && k < |sizes| && sizes[k] >= 2
    requires Complete(sizes, taken) >= Paired(sizes)
    ensures taken[k] == sizes[k]
  {
    CompleteAtMost(sizes[1..], taken[1..]);
    if k > 0 { AllComplete(sizes[1..], taken[1..], k - 1); }
  }

  lemma {:induction false} CompleteAtMost(sizes: seq<nat>, taken: seq<nat>)
    requires |taken| == |sizes|
    ensures Complete(sizes, taken) <= Paired(sizes)
  {
    if sizes != [] { CompleteAtMost(sizes[1..], taken[1..]); }
  }

  /** The cores with exactly two threads, taken whole. */
  function Twos(sizes: seq<nat>): (taken: seq<nat>)
    ensures |taken| == |sizes|
    ensures forall i :: 0 <= i < |sizes| ==> taken[i] == if sizes[i] == 2 then 2 else 0
  {
    seq(|sizes|, i requires 0 <= i < |sizes| => if sizes[i] == 2 then 2 else 0)
  }

  lemma {:induction false} TwosSum(taken: seq<nat>)
    requires forall i :: 0 <= i < |taken| ==> taken[i] == 2 || taken[i] == 0
    ensures Sum(taken) == 2 * Paired(taken)
  {
    if taken != [] { TwosSum(taken[1..]); }
  }

  // ---------- The condition suffices ----------

  /** The sizes without the single threads: what completing every core takes. */
  function Needed(sizes: seq<nat>): (taken: seq<nat>)
    ensures |taken| == |sizes|
    ensures forall i :: 0 <= i < |sizes| ==> taken[i] == if sizes[i] >= 2 then sizes[i] else 0
  {
    seq(|sizes|, i requires 0 <= i < |sizes| => if sizes[i] >= 2 then sizes[i] else 0)
  }

  lemma EveryPairWhole(sizes: seq<nat>, taken: seq<nat>, other: seq<nat>)
    requires PairsFirst(sizes, taken) && Within(other, sizes) && Sum(other) <= Sum(taken)
    requires forall i :: 0 <= i < |taken| && taken[i] >= 2 ==> taken[i] == sizes[i]
    ensures Complete(sizes, other) <= Complete(sizes, taken)
  {
    CompleteBound(sizes, taken);
    CompleteBound(sizes, other);
    PairedMonotone(other, sizes);
    SumCoversPairs(other, |other|);
  }

  lemma BigUnfinished(sizes: seq<nat>, taken: seq<nat>, other: seq<nat>, big: nat)
    requires PairsFirst(sizes, taken) && Within(other, sizes) && Sum(other) <= Sum(taken)
    requires OrderlyAround(sizes, big) && 2 <= taken[big] < sizes[big]
    ensures Complete(sizes, other) <= Complete(sizes, taken)
  {
    CompleteExcept(sizes, taken, big);
    CompleteAtMost(sizes, other);
    if Complete(sizes, other) >= Paired(sizes) {
      var needed := Needed(sizes);
      forall i | 0 <= i < |sizes| ensures taken[i] <= needed[i] && needed[i] <= other[i] {
        if sizes[i] >= 2 { AllComplete(sizes, other, i); }
      }
      SumStrict(taken, needed, big);
      SumMonotone(needed, other);
    }
  }

  lemma OrderlySuffices(sizes: seq<nat>, taken: seq<nat>, other: seq<nat>)
    requires Orderly(sizes) && PairsFirst(sizes, taken) && Within(other, sizes) && Sum(other) <= Sum(taken)
    ensures Complete(sizes, other) <= Complete(sizes, taken)
  {
    if forall i :: 0 <= i < |sizes| ==> sizes[i] <= 2 {
      EveryPairWhole(sizes, taken, other);
    } else {
      var big :| OrderlyAround(sizes, big);
      if 2 <= taken[big] < sizes[big] {
        BigUnfinished(sizes, taken, other, big);
      } else {
        EveryPairWhole(sizes, taken, other);
      }
    }
  }

  // ---------- The condition is needed ----------

  /** `other` completes more cores than any pairs-first selection of as many threads. */
  ghost predicate Beats(sizes: seq<nat>, other: seq<nat>) {
    && Within(other, sizes)
    && forall taken :: PairsFirst(sizes, taken) && Sum(taken) == Sum(other) ==>
         Complete(sizes, taken) < Complete(sizes, other)
  }

  /** A core with two threads after a larger one: the larger one gets its pair instead. */
  lemma PairAfterBig(sizes: seq<nat>, big: nat, two: nat)
    requires big < two < |sizes| && sizes[big] > 2 && sizes[two] == 2
    ensures Beats(sizes, Twos(sizes))
  {
    var other := Twos(sizes);
    TwosSum(other);
    PairedMonotone(other, sizes);
    forall taken | PairsFirst(sizes, taken) && Sum(taken) == Sum(other)
      ensures Complete(sizes, taken) < Complete(sizes, other)
    {
      forall i | 0 <= i < |taken| ensures taken[i] <= 2 {
        if taken[i] > 2 { SumCoversPairs(taken, i); }
      }
      if k :| 0 <= k < |sizes| && sizes[k] == 2 && taken[k] < 2 {
        CompleteCompares(sizes, taken, other, k);
      } else {
        assert taken[two] == 2;
        SumStrict(other, taken, big);
      }
    }
  }

  /** All cores of two, the smallest larger one, and one more thread if that has just three. */
  function Rival(sizes: seq<nat>, small: nat, second: nat): (other: seq<nat>)
    requires small < |sizes| && second < |sizes|
    ensures |other| == |sizes|
  {
    Twos(sizes)[small := sizes[small]][second := if sizes[small] == 3 then 1 else 0]
  }

  lemma RivalCosts(sizes: seq<nat>, small: nat, second: nat)
    requires small < |sizes| && second < |sizes| && small != second && sizes[small] > 2 && sizes[second] > 2
    ensures var pairs := Paired(Twos(sizes));
            && Sum(Rival(sizes, small, second)) == 2 * pairs + (if sizes[small] == 3 then 4 else sizes[small])
            && Paired(sizes) >= pairs + 2
  {
    var twos := Twos(sizes);
    var one := twos[small := sizes[small]];
    TwosSum(twos);
    SumUpdate(twos, small, sizes[small]);
    SumUpdate(one, second, if sizes[small] == 3 then 1 else 0);
    SumUpdate(one, second, 2);
    PairedMonotone(one[second := 2], sizes);
  }

  /** Two larger cores: the pairs are spread over both before one is finished. */
  lemma TwoBigs(sizes: seq<nat>, small: nat, second: nat)
    requires small < |sizes| && second < |sizes| && small != second && sizes[small] > 2 && sizes[second] > 2
    requires forall i :: 0 <= i < |sizes| && sizes[i] > 2 ==> sizes[small] <= sizes[i]
    ensures Beats(sizes, Rival(sizes, small, second))
  {
    var other := Rival(sizes, small, second);
    RivalCosts(sizes, small, second);
    forall taken | PairsFirst(sizes, taken) && Sum(taken) == Sum(other)
      ensures Complete(sizes, taken) < Complete(sizes, other)
    {
      NoBigFinished(sizes, taken, small, Paired(Twos(sizes)));
      CompleteCompares(sizes, taken, other, small);
    }
  }

  lemma NoBigFinished(sizes: seq<nat>, taken: seq<nat>, small: nat, pairs: nat)
    requires small < |sizes| && forall i :: 0 <= i < |sizes| && sizes[i] > 2 ==> sizes[small] <= sizes[i]
    requires Within(taken, sizes) && Paired(taken) >= Min(Sum(taken) / 2, Paired(sizes)) && sizes[small] > 2
    requires Sum(taken) == 2 * pairs + (if sizes[small] == 3 then 4 else sizes[small]) && Paired(sizes) >= pairs + 2
    ensures forall i :: 0 <= i < |sizes| && taken[i] == sizes[i] ==> sizes[i] <= 2
  {
    forall i | 0 <= i < |taken| && taken[i] == sizes[i] ensures sizes[i] <= 2 {
      if sizes[i] > 2 { SumCoversPairs(taken, i); }
    }
  }

  /** A single thread that is taken before the larger core is finished. */
  lemma SingleInTheWay(sizes: seq<nat>, big: nat, single: nat)
    requires big < |sizes| && single < |sizes| && sizes[big] > 2 && sizes[single] == 1
    requires forall i :: 0 <= i < |sizes| && i != big ==> sizes[i] <= 2
    requires sizes[big] > 3 || single < big
    ensures Beats(sizes, Twos(sizes)[big := sizes[big]])
  {
    var other := Twos(sizes)[big := sizes[big]];
    CompleteExcept(sizes, other, |sizes|);
    forall taken | PairsFirst(sizes, taken) && Sum(taken) == Sum(other)
      ensures Complete(sizes, taken) < Complete(sizes, other)
    {
      if Complete(sizes, taken) >= Paired(sizes) {
        forall i | 0 <= i < |sizes| ensures other[i] <= taken[i] {
          if sizes[i] >= 2 { AllComplete(sizes, taken, i); }
        }
        AllComplete(sizes, taken, big);
        SumStrict(other, taken, single);
      }
    }
  }

  lemma {:induction false} SmallestBig(sizes: seq<nat>, n: nat) returns (small: nat)
    requires n <= |sizes| && exists i :: 0 <= i < n && sizes[i] > 2
    ensures small < n && sizes[small] > 2
    ensures forall i :: 0 <= i < n && sizes[i] > 2 ==> sizes[small] <= sizes[i]
  {
    if exists i :: 0 <= i < n - 1 && sizes[i] > 2 {
      small := SmallestBig(sizes, n - 1);
      if 2 < sizes[n - 1] < sizes[small] { small := n - 1; }
    } else {
      small := n - 1;
    }
  }

  lemma OrderlyNeeded(sizes: seq<nat>) returns (other: seq<nat>)
    requires !Orderly(sizes) && forall i :: 0 <= i < |sizes| ==> sizes[i] >= 1
    ensures Beats(sizes, other)
  {
    var small := SmallestBig(sizes, |sizes|);
    if second :| 0 <= second < |sizes| && second != small && sizes[second] > 2 {
      TwoBigs(sizes, small, second);
      other := Rival(sizes, small, second);
    } else if two :| small < two < |sizes| && sizes[two] == 2 {
      PairAfterBig(sizes, small, two);
      other := Twos(sizes);
    } else {
      assert !OrderlyAround(sizes, small);
      var single :| 0 <= single < |sizes| && sizes[single] == 1 && (sizes[small] > 3 || single < small);
      SingleInTheWay(sizes, small, single);
      other := Twos(sizes)[small := sizes[small]];
    }
  }
}

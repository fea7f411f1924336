/** Ascending enumeration of finite CPU sets: what `sorted(set)` and slices of it mean. */
module SortedSets {

  predicate Ascending(s: seq<nat>) {
    forall i, j :: 0 <= i < j < |s| ==> s[i] < s[j]
  }

  function Elements(s: seq<nat>): set<nat> {
    set x | x in s
  }

  ghost predicate IsMinimum(m: nat, s: set<nat>) {
    m in s && forall x :: x in s ==> m <= x
  }

  lemma {:induction false} MinimumExists(s: set<nat>)
    requires s != {}
    ensures exists m :: IsMinimum(m, s)
  {
    var x :| x in s;
    var rest := s - {x};
    if rest == {} {
      assert s == {x};
      assert IsMinimum(x, s);
    } else {
      MinimumExists(rest);
      var m :| IsMinimum(m, rest);
      assert forall y :: y in s ==> y == x || y in rest;
      assert IsMinimum(if x < m then x else m, s);
    }
  }

  function Minimum(s: set<nat>): (m: nat)
    requires s != {}
    ensures IsMinimum(m, s)
  {
    MinimumExists(s);
    var m :| m in s && forall x :: x in s ==> m <= x;
    m
  }

  lemma PrependMinimum(m: nat, rest: seq<nat>, s: set<nat>)
    requires IsMinimum(m, s) && Ascending(rest) && Elements(rest) == s - {m}
    ensures Ascending([m] + rest) && Elements([m] + rest) == s
  {
    forall i | 0 <= i < |rest| ensures m < rest[i] {
      assert rest[i] in Elements(rest);
    }
    forall x ensures x in [m] + rest <==> x in s {
      assert x in rest <==> x in Elements(rest);
    }
  }

  function Sorted(s: set<nat>): (r: seq<nat>)
    ensures Ascending(r) && Elements(r) == s && |r| == |s|
  {
    if s == {} then [] else
      var m := Minimum(s);
      var rest := Sorted(s - {m});
      PrependMinimum(m, rest, s);
      [m] + rest
  }

  lemma TailElements(s: seq<nat>)
    requires s != [] && Ascending(s)
    ensures Elements(s[1..]) == Elements(s) - {s[0]}
  {
    assert s == [s[0]] + s[1..];
  }

  lemma FirstIsLeast(s: seq<nat>, x: nat)
    requires Ascending(s) && x in Elements(s)
    ensures s != [] && s[0] in Elements(s) && s[0] <= x
  {
  }

  lemma {:induction false} AscendingUnique(a: seq<nat>, b: seq<nat>)
    requires Ascending(a) && Ascending(b)
    requires Elements(a) == Elements(b)
    ensures a == b
  {
    if b != [] {
      assert b[0] in Elements(b);
    }
    if a != [] {
      FirstIsLeast(a, a[0]);
      FirstIsLeast(b, a[0]);
      FirstIsLeast(a, b[0]);
      TailElements(a);
      TailElements(b);
      AscendingUnique(a[1..], b[1..]);
      assert a == [a[0]] + a[1..] && b == [b[0]] + b[1..];
    }
  }

  /** The `k` smallest members, which is what `sorted(s)[:k]` selects. */
  function Lowest(s: set<nat>, k: nat): set<nat>
    requires k <= |s|
  {
    Elements(Sorted(s)[..k])
  }

  lemma AscendingSize(s: seq<nat>)
    requires Ascending(s)
    ensures |Elements(s)| == |s|
  {
    AscendingUnique(s, Sorted(Elements(s)));
  }

  lemma SplitElements(low: seq<nat>, high: seq<nat>)
    requires Ascending(low + high)
    ensures Ascending(low) && Ascending(high)
    ensures Elements(low + high) == Elements(low) + Elements(high)
    ensures forall x, y :: x in low && y in high ==> x < y
  {
    var all := low + high;
    assert forall i :: 0 <= i < |low| ==> low[i] == all[i];
    assert forall j :: 0 <= j < |high| ==> high[j] == all[|low| + j];
  }

  lemma LowestIsLowest(s: set<nat>, k: nat)
    requires k <= |s|
    ensures Lowest(s, k) <= s && |Lowest(s, k)| == k
    ensures Elements(Sorted(s)[k..]) == s - Lowest(s, k)
    ensures forall x, y :: x in Lowest(s, k) && y in s - Lowest(s, k) ==> x < y
  {
    var all := Sorted(s);
    hide Sorted;
    var low, high := all[..k], all[k..];
    assert low + high == all;
    SplitElements(low, high);
    AscendingSize(low);
    assert s == Elements(low) + Elements(high);
    assert Elements(low) !! Elements(high);
  }

  /** Taking the whole set, or taking from an already low part, changes nothing. */
  lemma LowestAll(s: set<nat>)
    ensures Lowest(s, |s|) == s
  {
    assert Sorted(s)[..|s|] == Sorted(s);
  }

  lemma SubsetSize(a: set<nat>, b: set<nat>)
    requires a <= b
    ensures |a| <= |b|
    ensures |a| == |b| ==> a == b
    ensures |b - a| == |b| - |a|
  {
    assert b == a + (b - a);
  }

  lemma SplitSize(a: set<nat>, b: set<nat>)
    ensures |a * b| + |a - b| == |a|
  {
    SubsetSize(a * b, a);
    assert a - a * b == a - b;
  }

  lemma DisjointSize(a: set<nat>, b: set<nat>)
    requires a !! b
    ensures |a + b| == |a| + |b|
  {
  }
}

/** The range strings are canonical: a CPU set has exactly one list of ascending, maximal,
    non-adjacent ranges, and that is the list which is printed. */
module Canonical {
  import opened Wrappers
  import opened SortedSets
  import opened Codec

  /** Ascending ranges with a gap after each of them. */
  predicate Gapped(rs: seq<Range>) {
    && (forall i :: 0 <= i < |rs| ==> Wellformed(rs[i]))
    && (forall i, j :: 0 <= i < j < |rs| ==> rs[i].last + 1 < rs[j].first)
  }

  lemma {:induction false} CoveredMember(rs: seq<Range>, x: nat)
    ensures x in Covered(rs) <==> exists i :: 0 <= i < |rs| && rs[i].first <= x <= rs[i].last
  {
    if rs != [] {
      CoveredMember(rs[1..], x);
      assert forall i :: 0 <= i < |rs| - 1 ==> rs[1..][i] == rs[i + 1];
      if i :| 0 <= i < |rs| && rs[i].first <= x <= rs[i].last {
        assert i > 0 ==> rs[1..][i - 1] == rs[i];
      }
    }
  }

  // ---------- What is printed ----------

  lemma GappedPrepend(r: Range, rs: seq<Range>)
    requires Wellformed(r) && Gapped(rs) && rs != [] && r.last + 1 < rs[0].first
    ensures Gapped([r] + rs)
  {
    assert forall j :: 0 < j < |rs| ==> rs[0].first < rs[j].first;
  }

  lemma {:induction false} RunsGapped(start: nat, prev: nat, rest: seq<nat>)
    requires start <= prev && Ascending(rest) && (rest != [] ==> prev < rest[0])
    ensures Gapped(RunsFrom(start, prev, rest))
    decreases rest
  {
    if rest != [] {
      assert Ascending(rest[1..]);
      if rest[0] == prev + 1 {
        RunsGapped(start, rest[0], rest[1..]);
      } else {
        RunsGapped(rest[0], rest[0], rest[1..]);
        hide Gapped;
        GappedPrepend(Range(start, prev), RunsFrom(rest[0], rest[0], rest[1..]));
      }
    }
  }

  lemma RunsOfAscending(sorted: seq<nat>)
    requires Ascending(sorted)
    ensures Gapped(Runs(sorted)) && Covered(Runs(sorted)) == Elements(sorted)
  {
    hide RunsFrom, Span;
    if sorted != [] {
      RunsGapped(sorted[0], sorted[0], sorted[1..]);
      RunsCover(sorted[0], sorted[0], sorted[1..]);
      TailElements(sorted);
    }
  }

  lemma PrintedRuns(cpus: set<nat>)
    ensures Print(cpus) == Join(RenderAll(Runs(Sorted(cpus))))
    ensures Gapped(Runs(Sorted(cpus))) && Covered(Runs(Sorted(cpus))) == cpus
  {
    hide Sorted, Runs, RenderAll, Join, SortList, Gapped, Ascending;
    RunsOfAscending(Sorted(cpus));
  }

  /** Every printed range is a maximal run of the set. */
  lemma RunsAreMaximal(cpus: set<nat>, i: nat)
    requires i < |Runs(Sorted(cpus))|
    ensures var r := Runs(Sorted(cpus))[i];
            && Span(r.first, r.last) <= cpus
            && r.last + 1 !in cpus && (r.first > 0 ==> r.first - 1 !in cpus)
  {
    hide Runs, Sorted, Print, Join, RenderAll, Covered;
    PrintedRuns(cpus);
    var rs := Runs(Sorted(cpus));
    var r := rs[i];
    forall x | r.first <= x <= r.last ensures x in cpus { CoveredMember(rs, x); }
    CoveredMember(rs, r.last + 1);
    if r.first > 0 { CoveredMember(rs, r.first - 1); }
  }

  // ---------- Uniqueness ----------

  lemma FirstRangeAgrees(a: seq<Range>, b: seq<Range>)
    requires Gapped(a) && Gapped(b) && Covered(a) == Covered(b) && a != [] && b != []
    ensures a[0].first == b[0].first && a[0].last <= b[0].last
  {
    CoveredMember(a, a[0].first);
    CoveredMember(b, a[0].first);
    CoveredMember(a, b[0].first);
    CoveredMember(b, b[0].first);
    if b[0].last < a[0].last {
      CoveredMember(a, b[0].last + 1);
      CoveredMember(b, b[0].last + 1);
    }
  }

  /** A set has no other gapped list of ranges. */
  lemma {:induction false} GappedUnique(a: seq<Range>, b: seq<Range>)
    requires Gapped(a) && Gapped(b) && Covered(a) == Covered(b)
    ensures a == b
  {
    hide Gapped, Covered, Span;
    CoversSomething(a);
    CoversSomething(b);
    if a != [] {
      FirstRangeAgrees(a, b);
      FirstRangeAgrees(b, a);
      TailCovers(a);
      TailCovers(b);
      GappedUnique(a[1..], b[1..]);
      assert a == [a[0]] + a[1..] && b == [b[0]] + b[1..];
    }
  }

  lemma CoversSomething(rs: seq<Range>)
    requires Gapped(rs)
    ensures Covered(rs) == {} <==> rs == []
  {
    if rs != [] {
      assert rs[0].first in Span(rs[0].first, rs[0].last);
    }
  }

  lemma TailCovers(rs: seq<Range>)
    requires Gapped(rs) && rs != []
    ensures Gapped(rs[1..]) && Covered(rs[1..]) == Covered(rs) - Span(rs[0].first, rs[0].last)
  {
    forall x | x in Covered(rs[1..]) ensures x !in Span(rs[0].first, rs[0].last) {
      CoveredMember(rs[1..], x);
    }
  }

  /** A string made of a gapped list of ranges is what its CPU set prints as. */
  lemma GappedIsPrinted(rs: seq<Range>)
    requires Gapped(rs)
    ensures Print(Covered(rs)) == Join(RenderAll(rs))
  {
    PrintedRuns(Covered(rs));
    GappedUnique(rs, Runs(Sorted(Covered(rs))));
  }

  /** Equal strings are equal sets. */
  lemma PrintInjective(a: set<nat>, b: set<nat>)
    ensures Print(a) == Print(b) <==> a == b
  {
    RoundTrip(a);
    RoundTrip(b);
  }

  // ---------- Documented examples ----------

  lemma JoinOfThree(a: string, b: string, c: string)
    ensures Join([a, b, c]) == a + "," + b + "," + c
  {
    assert [a, b, c][1..] == [b, c] && [b, c][1..] == [c];
    assert Join([c]) == c;
    assert Join([b, c]) == b + "," + c;
    assert Join([a, b, c]) == a + "," + (b + "," + c);
    assert a + "," + (b + "," + c) == a + "," + b + "," + c;
  }

  lemma ThreeRanges(a: Range, b: Range, c: Range)
    requires Wellformed(a) && Wellformed(b) && Wellformed(c) && a.last + 1 < b.first && b.last + 1 < c.first
    ensures var cpus := Span(a.first, a.last) + Span(b.first, b.last) + Span(c.first, c.last);
            && Print(cpus) == Render(a) + "," + Render(b) + "," + Render(c)
            && ParseCpuRanges(Render(a) + "," + Render(b) + "," + Render(c)) == Some(cpus)
  {
    hide Render, Span, Print, ParseCpuRanges;
    var rs := [a, b, c];
    assert Gapped(rs);
    GappedIsPrinted(rs);
    assert RenderAll(rs) == [Render(a), Render(b), Render(c)];
    JoinOfThree(Render(a), Render(b), Render(c));
    assert rs[1..] == [b, c] && [b, c][1..] == [c] && [c][1..] == [];
    var cpus := Span(a.first, a.last) + Span(b.first, b.last) + Span(c.first, c.last);
    assert Covered([c]) == Span(c.first, c.last);
    assert Covered([b, c]) == Span(b.first, b.last) + Span(c.first, c.last);
    assert Covered(rs) == cpus;
    RoundTrip(cpus);
  }

  lemma OneDigit(n: nat)
    requires n < 10
    ensures Decimal(n) == ['0' + n as char]
  {
  }

  lemma FirstExample()
    ensures Print({0, 1, 2, 4, 6, 7, 8}) == "0-2,4,6-8"
  {
    hide Decimal, Print, ParseCpuRanges, Span;
    var a, b, c := Range(0, 2), Range(4, 4), Range(6, 8);
    ThreeRanges(a, b, c);
    assert Span(0, 2) + Span(4, 4) + Span(6, 8) == {0, 1, 2, 4, 6, 7, 8};
    OneDigit(0);
    OneDigit(2);
    OneDigit(4);
    OneDigit(6);
    OneDigit(8);
    TextOfThree(a, b, c, ['0'] + "-" + ['2'], ['4'], ['6'] + "-" + ['8'], "0-2,4,6-8");
  }

  lemma TextOfThree(a: Range, b: Range, c: Range, ta: string, tb: string, tc: string, text: string)
    requires Render(a) == ta && Render(b) == tb && Render(c) == tc && ta + "," + tb + "," + tc == text
    ensures Render(a) + "," + Render(b) + "," + Render(c) == text
  {
  }

  lemma SecondExample()
    ensures Print({1, 3, 5}) == "1,3,5" && Print({}) == ""
  {
    hide Decimal, Print, ParseCpuRanges, Span;
    RoundTrip({});
    var a, b, c := Range(1, 1), Range(3, 3), Range(5, 5);
    ThreeRanges(a, b, c);
    assert Span(1, 1) + Span(3, 3) + Span(5, 5) == {1, 3, 5};
    OneDigit(1);
    OneDigit(3);
    OneDigit(5);
    TextOfThree(a, b, c, ['1'], ['3'], ['5'], "1,3,5");
  }

  lemma ThirdExample()
    ensures ParseCpuRanges("0-3,6,8-10") == Some({0, 1, 2, 3, 6, 8, 9, 10})
  {
    hide Decimal, Print, ParseCpuRanges, Span;
    var a, b, c := Range(0, 3), Range(6, 6), Range(8, 10);
    ThreeRanges(a, b, c);
    assert Span(0, 3) + Span(6, 6) + Span(8, 10) == {0, 1, 2, 3, 6, 8, 9, 10};
    OneDigit(0);
    OneDigit(1);
    OneDigit(3);
    OneDigit(6);
    OneDigit(8);
    DecimalParts(10);
    TextOfThree(a, b, c, ['0'] + "-" + ['3'], ['6'], ['8'] + "-" + ['1', '0'], "0-3,6,8-10");
  }

  /** The examples that the source documents. */
  lemma DocumentedExamples()
    ensures Print({0, 1, 2, 4, 6, 7, 8}) == "0-2,4,6-8" && Print({1, 3, 5}) == "1,3,5" && Print({}) == ""
    ensures ParseCpuRanges("0-3,6,8-10") == Some({0, 1, 2, 3, 6, 8, 9, 10})
  {
    hide Print, ParseCpuRanges;
    FirstExample();
    SecondExample();
    ThirdExample();
  }
}

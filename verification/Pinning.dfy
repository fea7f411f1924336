/** cpu_pinning.calculate_cpu_pinning: its own parser, the default size and the split. */
module Pinning {
  import opened Wrappers
  import opened SortedSets
  import opened Codec
  import opened Sizing

  // ---------- The inline parser ----------

  /** Components are neither stripped nor skipped, and a descending range denotes nothing. */
  function InlineComponent(part: string): Option<set<nat>> {
    if '-' in part then
      match Ends(Split(part, '-'))
      case Some(r) => Some(Span(r.first, r.last))
      case None => None
    else
      match PyInt(part)
      case Some(n) => Some({n})
      case None => None
  }

  function InlineParts(parts: seq<string>): Option<set<nat>> {
    if parts == [] then Some({}) else
      match (InlineComponent(parts[0]), InlineParts(parts[1..]))
      case (Some(cpus), Some(rest)) => Some(cpus + rest)
      case _ => None
  }

  function InlineParse(s: string): Option<set<nat>> { InlineParts(Split(s, ',')) }

  method InlineParseLoop(s: string) returns (r: Option<set<nat>>)
    ensures r == InlineParse(s)
  {
    var parts := Split(s, ',');
    hide Split, PyInt, Span;
    var cpus: set<nat> := {};
    var i := 0;
    assert parts[0..] == parts;
    while i < |parts|
      invariant 0 <= i <= |parts|
      invariant InlineParts(parts[i..]).None? ==> InlineParts(parts).None?
      invariant InlineParts(parts[i..]).Some? ==> InlineParts(parts).Some?
      invariant InlineParts(parts[i..]).Some? ==> InlineParts(parts).value == cpus + InlineParts(parts[i..]).value
    {
      var part := parts[i];
      assert parts[i..][0] == part && parts[i..][1..] == parts[i + 1..];
      if '-' in part {
        var ends := Ends(Split(part, '-'));
        if ends.None? { return None; }
        cpus := cpus + Span(ends.value.first, ends.value.last);
      } else {
        var number := PyInt(part);
        if number.None? { return None; }
        cpus := cpus + {number.value};
      }
      i := i + 1;
    }
    r := Some(cpus);
  }

  // ---------- Agreement with utils.parse_cpu_ranges ----------

  lemma {:induction false} StripRightBlank(x: string, c: char)
    requires IsSpace(c)
    ensures Strip(x + [c]) == Strip(x)
  {
    if x == "" {
      assert x + [c] == [c] && [c][1..] == "";
    } else if IsSpace(x[0]) {
      assert (x + [c])[1..] == x[1..] + [c];
      StripRightBlank(x[1..], c);
    } else {
      assert (x + [c])[..|x|] == x;
    }
  }

  lemma {:induction false} SplitAppend(x: string, c: char, sep: char)
    requires c != sep
    ensures var parts, longer := Split(x, sep), Split(x + [c], sep);
            && |longer| == |parts|
            && (forall i :: 0 <= i < |parts| - 1 ==> longer[i] == parts[i])
            && longer[|parts| - 1] == parts[|parts| - 1] + [c]
  {
    if x == "" {
      assert x + [c] == [c] && [c][1..] == "";
      assert Split([c], sep) == [[c] + ""];
    } else {
      var y := x + [c];
      assert y[1..] == x[1..] + [c] && y[0] == x[0];
      SplitAppend(x[1..], c, sep);
      var rest, more := Split(x[1..], sep), Split(y[1..], sep);
      if x[0] == sep {
        assert Split(x, sep) == [""] + rest && Split(y, sep) == [""] + more;
      } else {
        assert Split(x, sep) == [[x[0]] + rest[0]] + rest[1..] && Split(y, sep) == [[x[0]] + more[0]] + more[1..];
      }
    }
  }

  lemma PyIntIgnoresFront(c: char, x: string)
    requires IsSpace(c)
    ensures PyInt([c] + x) == PyInt(x)
  {
    hide DropUnderscores, Value, Underscored, StripRight;
    assert ([c] + x)[1..] == x;
    assert StripLeft([c] + x) == StripLeft(x);
  }

  /** Blanks around a component do not change the numbers in it. */
  lemma {:induction false} EndsIgnoreLeft(part: string)
    ensures Ends(Split(part, '-')) == Ends(Split(StripLeft(part), '-'))
    ensures '-' in part <==> '-' in StripLeft(part)
  {
    hide PyInt, Strip;
    if part != "" && IsSpace(part[0]) {
      EndsIgnoreLeft(part[1..]);
      var parts, rest := Split(part, '-'), Split(part[1..], '-');
      assert parts == [[part[0]] + rest[0]] + rest[1..];
      PyIntIgnoresFront(part[0], rest[0]);
      assert part == [part[0]] + part[1..];
    }
  }

  lemma PyIntIgnoresBlank(x: string, c: char)
    requires IsSpace(c)
    ensures PyInt(x + [c]) == PyInt(x)
  {
    StripRightBlank(x, c);
  }

  lemma {:induction false} EndsIgnoreRight(part: string)
    ensures Ends(Split(part, '-')) == Ends(Split(StripRight(part), '-'))
    ensures '-' in part <==> '-' in StripRight(part)
    decreases |part|
  {
    hide PyInt, Strip;
    if part != "" && IsSpace(part[|part| - 1]) {
      var front, c := part[..|part| - 1], part[|part| - 1];
      EndsIgnoreRight(front);
      assert part == front + [c];
      SplitAppend(front, c, '-');
      var parts, longer := Split(front, '-'), Split(part, '-');
      PyIntIgnoresBlank(parts[|parts| - 1], c);
      assert Ends(longer) == Ends(parts);
    }
  }

  lemma {:induction false} StripTwice(s: string)
    ensures PyInt(Strip(s)) == PyInt(s)
  {
    StripLeftFront(s);
    StripFixed(StripLeft(s));
  }

  lemma {:induction false} StripFixed(t: string)
    requires t == "" || !IsSpace(t[0])
    ensures Strip(StripRight(t)) == StripRight(t)
    decreases |t|
  {
    if t != "" && IsSpace(t[|t| - 1]) {
      var front := t[..|t| - 1];
      if front != "" { StripFixed(front); }
    }
  }

  lemma StripLeftFront(s: string)
    ensures StripLeft(s) == "" || !IsSpace(StripLeft(s)[0])
  {
  }

  lemma ComponentsAgree(part: string)
    requires Strip(part) != "" && Component(Strip(part)).Some?
    ensures InlineComponent(part) == Component(Strip(part))
  {
    EndsIgnoreLeft(part);
    EndsIgnoreRight(StripLeft(part));
    StripLeftFront(part);
    StripTwice(part);
    hide Split, StripLeft, StripRight, PyInt;
  }

  /** On every text without blank components that parse_cpu_ranges accepts, the inline parser
      finds the same CPUs; this covers everything to_ranges prints. */
  lemma {:induction false} InlineAgrees(parts: seq<string>)
    requires ParseParts(parts).Some? && forall i :: 0 <= i < |parts| ==> Strip(parts[i]) != ""
    ensures InlineParts(parts) == ParseParts(parts)
  {
    if parts != [] {
      ComponentsAgree(parts[0]);
      hide Strip, Component, InlineComponent;
      InlineAgrees(parts[1..]);
    }
  }

  lemma InlineParsesPrinted(cpus: set<nat>)
    requires cpus != {}
    ensures InlineParse(Print(cpus)) == Some(cpus)
  {
    var rs := Runs(SortList(Sorted(cpus)));
    RoundTrip(cpus);
    assert rs != [] by {
      RoundTrip({});
      assert Print(cpus) == Join(RenderAll(rs));
    }
    forall i | 0 <= i < |rs| ensures ',' !in RenderAll(rs)[i] && Strip(RenderAll(rs)[i]) != "" {
      RenderParses(rs[i]);
    }
    SplitJoin(RenderAll(rs));
    InlineAgrees(RenderAll(rs));
  }

  // ---------- The split ----------

  /** The shared and the dedicated CPUs; both empty when too few CPUs are listed. */
  function Pin(cpus: set<nat>, requested: int): (set<nat>, set<nat>) {
    var size := if requested > 0 then requested else DefaultSize(|cpus|);
    if size > |cpus| then ({}, {}) else (cpus - Lowest(cpus, size), Lowest(cpus, size))
  }

  lemma PrintSlice(sorted: seq<nat>)
    requires Ascending(sorted)
    ensures ToRanges(sorted) == Print(Elements(sorted))
  {
    AscendingUnique(sorted, Sorted(Elements(sorted)));
  }

  /** `cores_requested` after the default has been filled in. */
  method EffectiveCores(requested: int, total: nat) returns (cores: nat)
    ensures cores == if requested > 0 then requested else DefaultSize(total)
  {
    cores := if requested < 0 then 0 else requested;
    if cores == 0 {
      if total > LARGE_SYSTEM_THRESHOLD {
        cores := total - RESERVED_CORES_LARGE_SYSTEM;
      } else {
        cores := total * MAX_ALLOCATION_PERCENTAGE / 100;
      }
    }
  }

  lemma SlicesPrint(cpus: set<nat>, cores: nat)
    requires cores <= |cpus|
    ensures ToRanges(Sorted(cpus)[..cores]) == Print(Lowest(cpus, cores))
    ensures ToRanges(Sorted(cpus)[cores..]) == Print(cpus - Lowest(cpus, cores))
  {
    hide ToRanges, Print, Ascending, Sorted;
    var low, high := Sorted(cpus)[..cores], Sorted(cpus)[cores..];
    assert low + high == Sorted(cpus);
    LowestIsLowest(cpus, cores);
    SplitElements(low, high);
    hide Elements;
    PrintSlice(low);
    PrintSlice(high);
  }

  /** Dedicated CPUs are the lowest ones, shared CPUs the rest; None where the source raises. */
  method CalculateCpuPinning(cpuList: string, requested: int) returns (r: Option<(string, string)>)
    ensures r == if cpuList == "" then Some(("", "")) else
                   match InlineParse(cpuList)
                   case Some(cpus) => Some((Print(Pin(cpus, requested).0), Print(Pin(cpus, requested).1)))
                   case None => None
  {
    if cpuList == "" {
      return Some(("", ""));
    }
    var parsed := InlineParseLoop(cpuList);
    if parsed.None? {
      return None;
    }
    hide InlineParse, ToRanges, Sorted, Print, Lowest, DefaultSize;
    var list := Sorted(parsed.value);
    var cores := EffectiveCores(requested, |list|);
    if cores > |list| {
      RoundTrip({});
      return Some(("", ""));
    }
    SlicesPrint(parsed.value, cores);
    r := Some((ToRanges(list[cores..]), ToRanges(list[..cores])));
  }
}

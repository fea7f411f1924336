/** CPU range strings: the printer of utils.py and the parsers of utils.py,
    cpu_pinning.py and cpu_pool.py. */
module Codec {
  import opened Wrappers
  import opened SortedSets

  // ---------- Decimal integers ----------

  predicate IsDigit(c: char) { '0' <= c <= '9' }

  function DigitValue(c: char): (d: nat)
    requires IsDigit(c)
    ensures d < 10
  {
    c as int - '0' as int
  }

  predicate IsSpace(c: char) {
    c == ' ' || c == '\t' || c == '\n' || c == '\r' || c == '\U{000B}' || c == '\U{000C}'
  }

  predicate AllDigits(s: string) {
    |s| > 0 && forall i :: 0 <= i < |s| ==> IsDigit(s[i])
  }

  function Value(s: string): nat
    requires forall i :: 0 <= i < |s| ==> IsDigit(s[i])
  {
    if s == "" then 0 else Value(s[..|s| - 1]) * 10 + DigitValue(s[|s| - 1])
  }

  function Decimal(n: nat): (s: string)
    ensures AllDigits(s) && Value(s) == n
  {
    if n < 10 then
      var s := ['0' + n as char];
      assert Value(s) == Value(s[..0]) * 10 + n;
      s
    else
      var front := Decimal(n / 10);
      var s := front + ['0' + (n % 10) as char];
      assert s[..|s| - 1] == front;
      s
  }

  // ---------- Strings ----------

  function StripLeft(s: string): string {
    if s != "" && IsSpace(s[0]) then StripLeft(s[1..]) else s
  }

  function StripRight(s: string): string {
    if s != "" && IsSpace(s[|s| - 1]) then StripRight(s[..|s| - 1]) else s
  }

  function Strip(s: string): string { StripRight(StripLeft(s)) }

  function Split(s: string, sep: char): (parts: seq<string>)
    ensures |parts| > 0
  {
    if s == "" then [""] else
      var rest := Split(s[1..], sep);
      if s[0] == sep then [""] + rest else [[s[0]] + rest[0]] + rest[1..]
  }

  function Join(parts: seq<string>): string {
    if parts == [] then "" else if |parts| == 1 then parts[0] else parts[0] + "," + Join(parts[1..])
  }

  lemma {:induction false} SplitPrefix(head: string, tail: string, sep: char)
    requires sep !in head
    ensures Split(head, sep) == [head]
    ensures Split(head + [sep] + tail, sep) == [head] + Split(tail, sep)
  {
    var whole := head + [sep] + tail;
    if head == "" {
      assert whole[1..] == tail;
    } else {
      SplitPrefix(head[1..], tail, sep);
      assert whole[1..] == head[1..] + [sep] + tail;
      assert head == [head[0]] + head[1..];
    }
  }

  lemma {:induction false} SplitJoin(parts: seq<string>)
    requires |parts| > 0
    requires forall i :: 0 <= i < |parts| ==> ',' !in parts[i]
    ensures Split(Join(parts), ',') == parts
  {
    if |parts| == 1 {
      SplitPrefix(parts[0], "", ',');
    } else {
      SplitPrefix(parts[0], Join(parts[1..]), ',');
      SplitJoin(parts[1..]);
      assert Join(parts) == parts[0] + [','] + Join(parts[1..]);
    }
  }

  /** Python's `int(text)` on ASCII text without a minus sign: surrounding blanks, one `+`
      and single underscores between digits are accepted. */
  function PyInt(s: string): Option<nat> {
    var t := Strip(s);
    var digits := if t != "" && t[0] == '+' then t[1..] else t;
    if Underscored(digits) then Some(Value(DropUnderscores(digits))) else None
  }

  predicate Underscored(s: string) {
    && s != "" && IsDigit(s[0]) && IsDigit(s[|s| - 1])
    && (forall i :: 0 <= i < |s| ==> IsDigit(s[i]) || s[i] == '_')
    && (forall i :: 0 < i < |s| ==> s[i - 1] != '_' || s[i] != '_')
  }

  function DropUnderscores(s: string): (r: string)
    requires forall i :: 0 <= i < |s| ==> IsDigit(s[i]) || s[i] == '_'
    ensures forall i :: 0 <= i < |r| ==> IsDigit(r[i])
    ensures AllDigits(s) ==> r == s
  {
    if s == "" then "" else
      (if s[0] == '_' then "" else [s[0]]) + DropUnderscores(s[1..])
  }

  lemma StripIdentity(s: string)
    requires s != "" && !IsSpace(s[0]) && !IsSpace(s[|s| - 1])
    ensures Strip(s) == s
  {
  }

  lemma PyIntDigits(s: string)
    requires AllDigits(s)
    ensures Strip(s) == s && PyInt(s) == Some(Value(s))
  {
    StripIdentity(s);
  }

  // ---------- utils.to_ranges ----------

  datatype Range = Range(first: nat, last: nat)

  predicate Wellformed(r: Range) { r.first <= r.last }

  /** `set(range(first, last + 1))`; empty when the bounds descend. */
  function Span(first: nat, last: nat): (cpus: set<nat>)
    ensures forall x :: x in cpus <==> first <= x <= last
    decreases last - first
  {
    if first > last then {} else {first} + Span(first + 1, last)
  }

  function Render(r: Range): string {
    if r.first == r.last then Decimal(r.first) else Decimal(r.first) + "-" + Decimal(r.last)
  }

  function RenderAll(rs: seq<Range>): seq<string> {
    seq(|rs|, i requires 0 <= i < |rs| => Render(rs[i]))
  }

  /** The ranges still to be emitted once `start..prev` is open and `rest` is unread. */
  function RunsFrom(start: nat, prev: nat, rest: seq<nat>): (rs: seq<Range>)
    requires start <= prev
    ensures |rs| > 0 && rs[0].first == start
    ensures forall i :: 0 <= i < |rs| ==> Wellformed(rs[i])
    decreases rest
  {
    if rest == [] then [Range(start, prev)]
    else if rest[0] == prev + 1 then RunsFrom(start, rest[0], rest[1..])
    else [Range(start, prev)] + RunsFrom(rest[0], rest[0], rest[1..])
  }

  function Runs(sorted: seq<nat>): seq<Range> {
    if sorted == [] then [] else RunsFrom(sorted[0], sorted[0], sorted[1..])
  }

  /** Python's `sorted` on a list. */
  function Insert(x: nat, s: seq<nat>): (r: seq<nat>)
    ensures Elements(r) == {x} + Elements(s)
  {
    if s == [] || x <= s[0] then
      assert forall y :: y in [x] + s <==> y == x || y in s;
      [x] + s
    else
      var rest := Insert(x, s[1..]);
      assert s == [s[0]] + s[1..];
      assert forall y :: y in Elements(rest) <==> y == x || y in s[1..];
      assert forall y :: y in [s[0]] + rest <==> y == s[0] || y in rest;
      [s[0]] + rest
  }

  function SortList(s: seq<nat>): (r: seq<nat>)
    ensures Elements(r) == Elements(s)
    ensures Ascending(s) ==> r == s
  {
    if s == [] then [] else
      assert s == [s[0]] + s[1..];
      Insert(s[0], SortList(s[1..]))
  }

  /** What `to_ranges` returns. */
  function ToRanges(cpus: seq<nat>): string { Join(RenderAll(Runs(SortList(cpus)))) }

  /** `to_ranges(sorted(cpus))`, the string under which a CPU set is stored and reported. */
  function Print(cpus: set<nat>): string { ToRanges(Sorted(cpus)) }

  lemma RenderAppend(done: seq<Range>, next: Range, rest: seq<Range>)
    ensures RenderAll(done + [next]) == RenderAll(done) + [Render(next)]
    ensures done + [next] + rest == done + ([next] + rest)
  {
  }

  /** The loop of utils.py, proved against `ToRanges`. */
  method ToRangesLoop(cpus: seq<nat>) returns (r: string)
    ensures r == ToRanges(cpus)
  {
    hide Decimal, Insert;
    if cpus == [] {
      assert RenderAll([]) == [];
      return "";
    }
    hide SortList, Join;
    var sorted := SortList(cpus);
    assert cpus[0] in Elements(sorted);
    var ranges: seq<string> := [];
    var start, prev := sorted[0], sorted[0];
    var i := 1;
    ghost var emitted: seq<Range> := [];
    while i < |sorted|
      invariant 1 <= i <= |sorted| && start <= prev
      invariant ranges == RenderAll(emitted)
      invariant emitted + RunsFrom(start, prev, sorted[i..]) == Runs(sorted)
    {
      var cpu := sorted[i];
      assert sorted[i..][1..] == sorted[i + 1..];
      if cpu != prev + 1 {
        RenderAppend(emitted, Range(start, prev), RunsFrom(cpu, cpu, sorted[i + 1..]));
        ranges := ranges + [if start == prev then Decimal(start) else Decimal(start) + "-" + Decimal(prev)];
        emitted := emitted + [Range(start, prev)];
        start := cpu;
      }
      prev := cpu;
      i := i + 1;
    }
    RenderAppend(emitted, Range(start, prev), []);
    ranges := ranges + [if start == prev then Decimal(start) else Decimal(start) + "-" + Decimal(prev)];
    assert sorted[i..] == [];
    r := Join(ranges);
  }

  // ---------- utils.parse_cpu_ranges ----------

  /** `start, end = map(int, part.split("-"))`, which needs exactly two numbers. */
  function Ends(ends: seq<string>): Option<Range> {
    if |ends| != 2 then None else
      match (PyInt(ends[0]), PyInt(ends[1]))
      case (Some(first), Some(last)) => Some(Range(first, last))
      case _ => None
  }

  /** The CPUs of one stripped, non-empty component; None where the source raises. */
  function Component(part: string): Option<set<nat>> {
    if '-' in part then
      match Ends(Split(part, '-'))
      case Some(r) => if r.first > r.last then None else Some(Span(r.first, r.last))
      case None => None
    else
      match PyInt(part)
      case Some(n) => Some({n})
      case None => None
  }

  /** A component as the loop treats it: blank ones are skipped. */
  function Part(part: string): Option<set<nat>> {
    if Strip(part) == "" then Some({}) else Component(Strip(part))
  }

  /** All components must be well formed; the result is the union of what they denote. */
  function ParseParts(parts: seq<string>): Option<set<nat>> {
    if parts == [] then Some({}) else
      match (Part(parts[0]), ParseParts(parts[1..]))
      case (Some(cpus), Some(rest)) => Some(cpus + rest)
      case _ => None
  }

  function ParseCpuRanges(s: string): Option<set<nat>> { ParseParts(Split(s, ',')) }

  /** The loop of utils.py, proved against `ParseCpuRanges`. */
  method ParseCpuRangesLoop(s: string) returns (r: Option<set<nat>>)
    ensures r == ParseCpuRanges(s)
  {
    hide Split, Strip, PyInt, Span;
    var parts := Split(s, ',');
    if Strip(s) == "" {
      BlankParses(s);
      return Some({});
    }
    var cpus: set<nat> := {};
    var i := 0;
    assert parts[0..] == parts;
    while i < |parts|
      invariant 0 <= i <= |parts|
      invariant ParseParts(parts[i..]).None? ==> ParseParts(parts).None?
      invariant ParseParts(parts[i..]).Some? ==> ParseParts(parts).Some?
      invariant ParseParts(parts[i..]).Some? ==> ParseParts(parts).value == cpus + ParseParts(parts[i..]).value
    {
      var part := Strip(parts[i]);
      assert parts[i..][0] == parts[i] && parts[i..][1..] == parts[i + 1..];
      if part != "" {
        if '-' in part {
          var ends := Ends(Split(part, '-'));
          if ends.None? || ends.value.first > ends.value.last { return None; }
          cpus := cpus + Span(ends.value.first, ends.value.last);
        } else {
          var number := PyInt(part);
          if number.None? { return None; }
          cpus := cpus + {number.value};
        }
      }
      i := i + 1;
    }
    r := Some(cpus);
  }

  lemma {:induction false} BlankHasNoComma(s: string)
    requires Strip(s) == ""
    ensures forall i :: 0 <= i < |s| ==> IsSpace(s[i])
  {
    if s != "" {
      if IsSpace(s[0]) {
        BlankHasNoComma(s[1..]);
        assert s == [s[0]] + s[1..];
      } else {
        FrontSurvives(s);
        assert false;
      }
    }
  }

  lemma FrontSurvives(s: string)
    requires s != "" && !IsSpace(s[0])
    ensures StripRight(s) != "" && StripRight(s)[0] == s[0]
  {
  }

  lemma BlankParses(s: string)
    requires Strip(s) == ""
    ensures ParseCpuRanges(s) == Some({})
  {
    BlankHasNoComma(s);
    SplitPrefix(s, "", ',');
    assert [s][1..] == [];
    assert ParseParts([s][1..]) == Some({});
    assert Part(s) == Some({});
    assert ParseParts([s]).Some? && ParseParts([s]).value == {};
  }

  // ---------- The round trip ----------

  function Covered(rs: seq<Range>): set<nat> {
    if rs == [] then {} else Span(rs[0].first, rs[0].last) + Covered(rs[1..])
  }

  lemma PairParses(a: string, b: string)
    requires AllDigits(a) && AllDigits(b) && Value(a) <= Value(b)
    ensures Component(a + "-" + b) == Some(Span(Value(a), Value(b)))
  {
    hide Split, PyInt, Span;
    var s := a + ['-'] + b;
    assert s[|a|] == '-';
    assert Split(s, '-') == [a, b] by {
      SplitPrefix(a, b, '-');
      SplitPrefix(b, "", '-');
    }
    assert Ends([a, b]) == Some(Range(Value(a), Value(b))) by {
      PyIntDigits(a);
      PyIntDigits(b);
    }
  }

  lemma RenderParses(r: Range)
    requires Wellformed(r)
    ensures ',' !in Render(r) && Strip(Render(r)) == Render(r) != ""
    ensures Part(Render(r)) == Some(Span(r.first, r.last))
  {
    var a, b := Decimal(r.first), Decimal(r.last);
    hide Decimal, Split, DropUnderscores, Span;
    if r.first == r.last {
      PyIntDigits(a);
      assert Span(r.first, r.last) == {r.first};
    } else {
      PairParses(a, b);
      StripIdentity(a + "-" + b);
    }
  }

  lemma {:induction false} PartsParse(rs: seq<Range>)
    requires forall i :: 0 <= i < |rs| ==> Wellformed(rs[i])
    ensures ParseParts(RenderAll(rs)) == Some(Covered(rs))
  {
    if rs != [] {
      var parts := RenderAll(rs);
      assert Part(parts[0]) == Some(Span(rs[0].first, rs[0].last)) by {
        RenderParses(rs[0]);
      }
      PartsParse(rs[1..]);
      assert parts[1..] == RenderAll(rs[1..]);
    }
  }

  lemma RangesParse(rs: seq<Range>)
    requires forall i :: 0 <= i < |rs| ==> Wellformed(rs[i])
    ensures ParseCpuRanges(Join(RenderAll(rs))) == Some(Covered(rs))
  {
    if rs == [] {
      BlankParses("");
    } else {
      forall i | 0 <= i < |rs| ensures ',' !in RenderAll(rs)[i] {
        RenderParses(rs[i]);
      }
      SplitJoin(RenderAll(rs));
      PartsParse(rs);
    }
  }

  lemma {:induction false} RunsCover(start: nat, prev: nat, rest: seq<nat>)
    requires start <= prev
    ensures Covered(RunsFrom(start, prev, rest)) == Span(start, prev) + Elements(rest)
    decreases rest
  {
    if rest != [] {
      assert rest == [rest[0]] + rest[1..];
      if rest[0] == prev + 1 {
        RunsCover(start, rest[0], rest[1..]);
      } else {
        RunsCover(rest[0], rest[0], rest[1..]);
      }
    }
  }

  /** Parsing undoes printing, for every list of naturals, sorted or not, with repeats or not. */
  lemma ListRoundTrip(cpus: seq<nat>)
    ensures ParseCpuRanges(ToRanges(cpus)) == Some(Elements(cpus))
  {
    var sorted := SortList(cpus);
    RangesParse(Runs(sorted));
    if sorted == [] {
      assert Elements(sorted) == {};
    } else {
      RunsCover(sorted[0], sorted[0], sorted[1..]);
      assert sorted == [sorted[0]] + sorted[1..];
      assert Elements(sorted) == Span(sorted[0], sorted[0]) + Elements(sorted[1..]);
    }
  }

  lemma RoundTrip(cpus: set<nat>)
    ensures ParseCpuRanges(Print(cpus)) == Some(cpus)
    ensures Print(cpus) == "" <==> cpus == {}
  {
    ListRoundTrip(Sorted(cpus));
    if Print(cpus) == "" {
      BlankParses("");
    }
  }

  // ---------- The printed form ----------

  lemma {:induction false} DecimalShortest(n: nat)
    ensures |Decimal(n)| == 1 || Decimal(n)[0] != '0'
  {
    if n >= 10 {
      DecimalShortest(n / 10);
      if n / 10 < 10 {
        assert Decimal(n / 10) == ['0' + (n / 10) as char];
      }
    }
  }

  lemma {:induction false} PositiveValue(s: string)
    requires AllDigits(s) && s[0] != '0'
    ensures Value(s) > 0
  {
    if |s| > 1 {
      PositiveValue(s[..|s| - 1]);
    }
  }

  lemma DecimalParts(n: nat)
    requires n >= 10
    ensures Decimal(n) == Decimal(n / 10) + ['0' + (n % 10) as char]
  {
  }

  lemma ValueParts(front: string, c: char)
    requires AllDigits(front) && IsDigit(c)
    ensures AllDigits(front + [c]) && Value(front + [c]) == Value(front) * 10 + DigitValue(c)
    ensures Value(front + [c]) / 10 == Value(front) && ['0' + (Value(front + [c]) % 10) as char] == [c]
  {
    assert (front + [c])[..|front|] == front;
  }

  lemma DigitPrints(c: char)
    requires IsDigit(c)
    ensures Value([c]) == DigitValue(c) && Decimal(DigitValue(c)) == [c]
  {
    assert [c][..0] == "";
  }

  /** A number is printed as the only digit string without leading zeros that denotes it. */
  lemma {:induction false} DecimalUnique(s: string)
    requires AllDigits(s) && (|s| == 1 || s[0] != '0')
    ensures Decimal(Value(s)) == s
  {
    hide Decimal, Value;
    if |s| == 1 {
      assert s == [s[0]];
      DigitPrints(s[0]);
    } else {
      var front, c := s[..|s| - 1], s[|s| - 1];
      assert s == front + [c] && front[0] == s[0];
      PositiveValue(front);
      DecimalUnique(front);
      ValueParts(front, c);
      DecimalParts(Value(s));
    }
  }

  /** A single CPU is printed as a number, a run of several as two numbers joined by a dash. */
  lemma RenderForm(r: Range)
    requires Wellformed(r)
    ensures '-' in Render(r) <==> r.first < r.last
    ensures r.first == r.last ==> AllDigits(Render(r)) && Value(Render(r)) == r.first
  {
    hide Decimal, Value;
    if r.first < r.last {
      assert Render(r)[|Decimal(r.first)|] == '-';
    }
  }

  // ---------- What int() accepts ----------

  lemma {:induction false} DropOne(a: string, b: string)
    requires AllDigits(a) && AllDigits(b)
    ensures DropUnderscores(a + "_" + b) == a + b
  {
    if |a| == 1 {
      assert (a + "_" + b)[1..] == "_" + b && ("_" + b)[1..] == b;
      assert DropUnderscores("_" + b) == b;
      assert [a[0]] + b == a + b;
    } else {
      DropOne(a[1..], b);
      assert (a + "_" + b)[1..] == a[1..] + "_" + b;
      assert [a[0]] + (a[1..] + b) == a + b;
    }
  }

  lemma NoUnderscore(a: string)
    requires AllDigits(a)
    ensures Underscored(a) && DropUnderscores(a) == a
  {
  }

  lemma PlusSign(a: string)
    requires AllDigits(a)
    ensures PyInt("+" + a) == Some(Value(a))
  {
    var plus := "+" + a;
    StripIdentity(plus);
    NoUnderscore(a);
    hide Strip, DropUnderscores, Value, Underscored;
    assert plus[1..] == a;
  }

  lemma JoinedByUnderscore(a: string, b: string)
    requires AllDigits(a) && AllDigits(b)
    ensures AllDigits(a + b) && PyInt(a + "_" + b) == Some(Value(a + b))
  {
    var joined := a + "_" + b;
    StripIdentity(joined);
    DropOne(a, b);
    hide Strip, DropUnderscores, Value;
    assert Underscored(joined);
    assert joined[0] == a[0];
  }

  lemma EmptyIsNoNumber()
    ensures PyInt("") == None
  {
    assert Strip("") == "";
  }

  /** A plus sign and single underscores between digits are accepted, an empty text is not. */
  lemma PyIntForms(a: string, b: string)
    requires AllDigits(a) && AllDigits(b)
    ensures PyInt("+" + a) == Some(Value(a)) && PyInt("") == None
    ensures AllDigits(a + b) && PyInt(a + "_" + b) == Some(Value(a + b))
  {
    hide PyInt, Value;
    PlusSign(a);
    JoinedByUnderscore(a, b);
    EmptyIsNoNumber();
  }
}

/** cpu_pool.py: the bounded list parser, the two pools a daemon freezes at start, and the
    configure hook that decides which general pool is accepted. */
module CpuPools {
  import opened Wrappers
  import opened SortedSets
  import opened Codec
  import Canonical
  import Pinning
  import Ledger
  import SmtSelection
  import Requests
  import Guarantees

  // ---------- parse_cpu_list ----------

  const MAX_CPU_ID: nat := 65535

  /** The regular expression `[0-9]+(\s*-\s*[0-9]+)?` on a stripped component, and its two numbers. */
  function Bounds(component: string): Option<Range> {
    var ends := Split(component, '-');
    if |ends| == 1 && AllDigits(ends[0]) then
      Some(Range(Value(ends[0]), Value(ends[0])))
    else if |ends| == 2 && AllDigits(StripRight(ends[0])) && AllDigits(StripLeft(ends[1])) then
      Some(Range(Value(StripRight(ends[0])), Value(StripLeft(ends[1]))))
    else
      None
  }

  /** The checks before a range is expanded. */
  predicate Bounded(r: Range, present: Option<set<nat>>) {
    match present
    case None => r.last <= MAX_CPU_ID
    case Some(cpus) => r.first in cpus && r.last in cpus && r.last - r.first + 1 <= |cpus|
  }

  /** One component: its CPUs, or None where the source raises. */
  function Accept(r: Range, present: Option<set<nat>>): Option<set<nat>> {
    if r.first > r.last || !Bounded(r, present) then None
    else if present.Some? && !(Span(r.first, r.last) <= present.value) then None
    else Some(Span(r.first, r.last))
  }

  function ParseComponents(parts: seq<string>, present: Option<set<nat>>): Option<set<nat>> {
    if parts == [] then Some({}) else
      match Bounds(Strip(parts[0]))
      case None => None
      case Some(r) =>
        match (Accept(r, present), ParseComponents(parts[1..], present))
        case (Some(cpus), Some(rest)) => Some(cpus + rest)
        case _ => None
  }

  function ParseCpuList(s: string, present: Option<set<nat>>, allowEmpty: bool): Option<set<nat>> {
    if allowEmpty && Strip(s) == "" then Some({}) else ParseComponents(Split(s, ','), present)
  }

  /** The ranges that are expanded before the parser returns or raises. */
  function Expanded(parts: seq<string>, present: Option<set<nat>>): seq<Range> {
    if parts == [] then [] else
      match Bounds(Strip(parts[0]))
      case None => []
      case Some(r) =>
        if r.first > r.last || !Bounded(r, present) then []
        else if Accept(r, present).None? then [r]
        else [r] + Expanded(parts[1..], present)
  }

  /** The loop of cpu_pool.py, proved against `ParseCpuList`; `expanded` records every range it expands. */
  method ParseCpuListLoop(s: string, present: Option<set<nat>>, allowEmpty: bool)
    returns (r: Option<set<nat>>, ghost expanded: seq<Range>)
    ensures r == ParseCpuList(s, present, allowEmpty)
    ensures expanded == if allowEmpty && Strip(s) == "" then [] else Expanded(Split(s, ','), present)
  {
    hide Split, Strip, Span, Bounds;
    expanded := [];
    if allowEmpty && Strip(s) == "" {
      return Some({}), [];
    }
    var parts := Split(s, ',');
    var cpus: set<nat> := {};
    var i := 0;
    assert parts[0..] == parts;
    while i < |parts|
      invariant 0 <= i <= |parts|
      invariant ParseComponents(parts[i..], present).None? ==> ParseComponents(parts, present).None?
      invariant ParseComponents(parts[i..], present).Some? ==> ParseComponents(parts, present).Some?
      invariant ParseComponents(parts[i..], present).Some? ==>
                  ParseComponents(parts, present).value == cpus + ParseComponents(parts[i..], present).value
      invariant expanded + Expanded(parts[i..], present) == Expanded(parts, present)
    {
      assert parts[i..][0] == parts[i] && parts[i..][1..] == parts[i + 1..];
      var matched := Bounds(Strip(parts[i]));
      if matched.None? || matched.value.first > matched.value.last { return None, expanded; }
      var start, end := matched.value.first, matched.value.last;
      if present.None? {
        if end > MAX_CPU_ID { return None, expanded; }
      } else if start !in present.value || end !in present.value || end - start + 1 > |present.value| {
        return None, expanded;
      }
      var ids := Span(start, end);
      SmtSelection.AppendShift(expanded, [Range(start, end)], Expanded(parts[i + 1..], present));
      expanded := expanded + [Range(start, end)];
      if present.Some? && !(ids <= present.value) { return None, expanded; }
      cpus := cpus + ids;
      i := i + 1;
    }
    r := Some(cpus);
  }

  // ---------- The bounds refine the simple meaning ----------

  /** The simple parser: every component well formed, everything expanded, nothing bounded. */
  function Expand(parts: seq<string>): Option<set<nat>> {
    if parts == [] then Some({}) else
      match (Bounds(Strip(parts[0])), Expand(parts[1..]))
      case (Some(r), Some(rest)) => if r.first > r.last then None else Some(Span(r.first, r.last) + rest)
      case _ => None
  }

  lemma SpanSize(first: nat, last: nat)
    requires first <= last
    ensures |Span(first, last)| == last - first + 1
    decreases last - first
  {
    assert first !in Span(first + 1, last);
  }

  /** The limits a caller asks for, on the expanded set. */
  ghost predicate Within(cpus: set<nat>, present: Option<set<nat>>) {
    match present
    case None => forall c :: c in cpus ==> c <= MAX_CPU_ID
    case Some(p) => cpus <= p
  }

  /** The early endpoint and size checks reject nothing but ranges that leave the bounds. */
  lemma AcceptIsWithin(r: Range, present: Option<set<nat>>)
    requires r.first <= r.last
    ensures Accept(r, present) == if Within(Span(r.first, r.last), present) then Some(Span(r.first, r.last)) else None
  {
    var cpus := Span(r.first, r.last);
    assert r.first in cpus && r.last in cpus;
    if present.Some? && cpus <= present.value {
      SpanSize(r.first, r.last);
      SubsetSize(cpus, present.value);
    }
  }

  /** The bounded parser accepts exactly the well-formed lists whose expansion is within the
      bounds, with the same result. */
  lemma {:induction false} BoundedIsSimple(parts: seq<string>, present: Option<set<nat>>)
    ensures ParseComponents(parts, present).Some? <==> Expand(parts).Some? && Within(Expand(parts).value, present)
    ensures ParseComponents(parts, present).Some? ==> ParseComponents(parts, present).value == Expand(parts).value
  {
    if parts != [] {
      BoundedIsSimple(parts[1..], present);
      hide Bounds, Strip, Span;
      var matched := Bounds(Strip(parts[0]));
      if matched.Some? && matched.value.first <= matched.value.last {
        AcceptIsWithin(matched.value, present);
        hide Accept;
      }
    }
  }

  /** No range is expanded beyond the size of the present topology, or beyond MAX_CPU_ID. */
  lemma {:induction false} ExpansionIsBounded(parts: seq<string>, present: Option<set<nat>>)
    ensures forall r :: r in Expanded(parts, present) ==>
              |Span(r.first, r.last)| <= if present.Some? then |present.value| else MAX_CPU_ID + 1
  {
    if parts != [] && Expanded(parts, present) != [] {
      var r := Bounds(Strip(parts[0])).value;
      SpanSize(r.first, r.last);
      hide Bounds, Strip, Span;
      ExpansionIsBounded(parts[1..], present);
    }
  }

  // ---------- Agreement with the other parsers ----------

  lemma {:induction false} SplitOnce(s: string, sep: char)
    ensures |Split(s, sep)| == 1 ==> Split(s, sep) == [s]
    ensures sep in s <==> |Split(s, sep)| > 1
  {
    if s != "" {
      SplitOnce(s[1..], sep);
      assert s == [s[0]] + s[1..];
    }
  }

  lemma {:induction false} StripRightPrefix(s: string)
    ensures StripRight(s) <= s
  {
    if s != "" && IsSpace(s[|s| - 1]) {
      StripRightPrefix(s[..|s| - 1]);
    }
  }

  lemma NumberWithBlanks(s: string)
    ensures AllDigits(StripRight(s)) ==> PyInt(s) == Some(Value(StripRight(s)))
    ensures AllDigits(StripLeft(s)) ==> PyInt(s) == Some(Value(StripLeft(s)))
  {
    StripRightPrefix(s);
    hide DropUnderscores, Value, Underscored;
    if AllDigits(StripRight(s)) {
      assert s[0] == StripRight(s)[0];
      assert Strip(s) == StripRight(s);
      PyIntDigits(StripRight(s));
      assert Strip(StripRight(s)) == Strip(s);
    }
    if AllDigits(StripLeft(s)) {
      PyIntDigits(StripLeft(s));
      assert Strip(s) == StripRight(StripLeft(s)) == StripLeft(s);
    }
  }

  lemma BoundsAgree(part: string)
    requires Bounds(Strip(part)).Some? && Wellformed(Bounds(Strip(part)).value)
    ensures Part(part) == Some(Span(Bounds(Strip(part)).value.first, Bounds(Strip(part)).value.last))
  {
    var c := Strip(part);
    var ends := Split(c, '-');
    SplitOnce(c, '-');
    hide Strip, Split, StripLeft, StripRight, PyInt, Span;
    if |ends| == 1 {
      PyIntDigits(c);
      SpanOne(Value(c));
    } else {
      NumberWithBlanks(ends[0]);
      NumberWithBlanks(ends[1]);
      assert c != "";
      hide Value;
    }
  }

  lemma SpanOne(n: nat)
    ensures Span(n, n) == {n}
  {
  }

  /** Whatever the pool parser accepts means the same to parse_cpu_ranges. */
  lemma {:induction false} ExpandAgrees(parts: seq<string>)
    requires Expand(parts).Some?
    ensures ParseParts(parts) == Expand(parts)
  {
    if parts != [] {
      BoundsAgree(parts[0]);
      hide Bounds, Strip, Part;
      ExpandAgrees(parts[1..]);
    }
  }

  lemma DigitsStrip(s: string)
    requires AllDigits(s)
    ensures StripLeft(s) == s == StripRight(s)
  {
  }

  lemma BoundsOfRender(r: Range)
    requires Wellformed(r)
    ensures Bounds(Strip(Render(r))) == Some(r)
  {
    hide Decimal, Strip, Split, Value, Part, StripLeft, StripRight;
    RenderParses(r);
    var a, b := Decimal(r.first), Decimal(r.last);
    SplitPrefix(a, b, '-');
    SplitPrefix(b, "", '-');
    assert a + "-" + b == a + ['-'] + b;
    DigitsStrip(a);
    DigitsStrip(b);
  }

  lemma {:induction false} ExpandRendered(rs: seq<Range>)
    requires forall i :: 0 <= i < |rs| ==> Wellformed(rs[i])
    ensures Expand(RenderAll(rs)) == Some(Covered(rs))
  {
    if rs != [] {
      BoundsOfRender(rs[0]);
      hide Bounds, Strip, Render;
      ExpandRendered(rs[1..]);
      assert RenderAll(rs)[1..] == RenderAll(rs[1..]);
    }
  }

  lemma PrintedExpands(cpus: set<nat>)
    requires cpus != {}
    ensures Expand(Split(Print(cpus), ',')) == Some(cpus) && Strip(Print(cpus)) != ""
  {
    hide Sorted, Decimal, RunsFrom, Span, Strip, Bounds;
    Canonical.PrintedRuns(cpus);
    var rs := Runs(Sorted(cpus));
    hide Runs;
    assert rs != [];
    forall i | 0 <= i < |rs| ensures ',' !in RenderAll(rs)[i] {
      RenderParses(rs[i]);
    }
    SplitJoin(RenderAll(rs));
    ExpandRendered(rs);
    RoundTrip(cpus);
    if Strip(Print(cpus)) == "" {
      BlankParses(Print(cpus));
    }
  }

  /** The pool parser reads back every printed set that is within its bounds, and no other. */
  lemma PrintedParses(cpus: set<nat>, present: Option<set<nat>>, allowEmpty: bool)
    requires cpus != {} || allowEmpty
    ensures Within(cpus, present) ==> ParseCpuList(Print(cpus), present, allowEmpty) == Some(cpus)
    ensures !Within(cpus, present) ==> ParseCpuList(Print(cpus), present, allowEmpty) == None
  {
    hide Print, Expand, ParseComponents, Split, Strip;
    if cpus == {} {
      RoundTrip(cpus);
      BlankText();
    } else {
      PrintedExpands(cpus);
      BoundedIsSimple(Split(Print(cpus), ','), present);
    }
  }

  lemma BlankText()
    ensures Strip("") == ""
  {
  }

  // ---------- The pools ----------

  datatype Source = FromKernel | FromOperator

  datatype Provider = Provider(source: Source, configured: set<nat>)

  datatype Pools = Pools(isolated: Provider, general: Option<Provider>)

  /** What `snapctl get` reports: an unset key, or a text; the word `isolated` also means unset. */
  predicate AsksForGeneral(configuration: Option<string>) {
    configuration.Some? && Strip(configuration.value) != "isolated"
  }

  /** `read_cpu_list` on the content of a sysfs file, None when it cannot be read. */
  function ReadCpuList(content: Option<string>): Option<set<nat>> {
    match content
    case None => None
    case Some(text) => ParseCpuList(text, None, true)
  }

  /** `CpuPoolProvider(configuration)`; `kernel` is the content of the isolated-CPU file. */
  function NewProvider(configuration: Option<string>, kernel: Option<string>): Option<Provider> {
    if !AsksForGeneral(configuration) then
      match kernel
      case None => None
      case Some(text) =>
        (match ParseCpuList(Strip(text), None, true)
         case Some(cpus) => Some(Provider(FromKernel, cpus))
         case None => None)
    else
      match ParseCpuList(configuration.value, None, false)
      case Some(cpus) => Some(Provider(FromOperator, cpus))
      case None => None
  }

  /** `CpuPools(configuration)`, which raises when the general pool overlaps the isolated one. */
  function NewPools(configuration: Option<string>, kernel: Option<string>): Option<Pools> {
    match NewProvider(None, kernel)
    case None => None
    case Some(isolated) =>
      if !AsksForGeneral(configuration) then Some(Pools(isolated, None)) else
        match NewProvider(configuration, kernel)
        case None => None
        case Some(general) =>
          if isolated.configured * general.configured != {} then None else Some(Pools(isolated, Some(general)))
  }

  function WithoutCapacity(source: Source): Provider { Provider(source, {}) }

  /** What a daemon starts with: the pools of the strict constructor, and where that fails a
      pool without CPUs. `read` is None when snapctl fails. */
  function Startup(kernel: Option<string>, read: Option<Option<string>>): Pools {
    Pools(
      match NewProvider(None, kernel) case Some(p) => p case None => WithoutCapacity(FromKernel),
      match read
      case None => Some(WithoutCapacity(FromOperator))
      case Some(configuration) =>
        match NewPools(configuration, kernel)
        case Some(pools) => pools.general
        case None => if AsksForGeneral(configuration) then Some(WithoutCapacity(FromOperator)) else None)
  }

  /** `load_startup_pool`: its two guarded blocks, step by step. */
  method LoadStartupPool(kernel: Option<string>, read: Option<Option<string>>) returns (pools: Pools)
    ensures pools == Startup(kernel, read)
  {
    hide ParseCpuList, Strip;
    var known := true;
    var isolated := NewProvider(None, kernel);
    if isolated.None? {
      isolated := Some(WithoutCapacity(FromKernel));
      known := false;
    }
    pools := Pools(isolated.value, None);
    var failed := read.None?;
    if !failed && AsksForGeneral(read.value) {
      var general := NewProvider(read.value, kernel);
      if general.None? {
        failed := true;
      } else {
        pools := pools.(general := general);
        failed := !known || pools.isolated.configured * general.value.configured != {};
      }
    }
    if failed {
      pools := pools.(general := Some(WithoutCapacity(FromOperator)));
    }
  }

  function GeneralCpus(pools: Pools): set<nat> {
    if pools.general.Some? then pools.general.value.configured else {}
  }

  lemma NoCommonCpu(a: set<nat>, b: set<nat>)
    ensures a * b == {} <==> a !! b
  {
    assert a !! b ==> a * b == {};
    assert forall c :: c in a && c in b ==> c in a * b;
  }

  lemma NothingExcluded(claimed: set<nat>, configured: set<nat>)
    ensures claimed - configured == {} <==> claimed <= configured
  {
    assert forall c :: c in claimed && c !in configured ==> c in claimed - configured;
    assert claimed <= configured ==> claimed - configured == {};
  }

  lemma PoolsExistWhenDisjoint(configuration: Option<string>, kernel: Option<string>)
    requires AsksForGeneral(configuration) && NewProvider(None, kernel).Some?
    requires NewProvider(configuration, kernel).Some?
    ensures var isolated, general := NewProvider(None, kernel).value, NewProvider(configuration, kernel).value;
            NewPools(configuration, kernel) ==
            if isolated.configured !! general.configured then Some(Pools(isolated, Some(general))) else None
  {
    hide NewProvider, Strip;
    NoCommonCpu(NewProvider(None, kernel).value.configured, NewProvider(configuration, kernel).value.configured);
  }

  /** Whatever fails at startup, no CPU is configured in both pools. */
  lemma StartupIsDisjoint(kernel: Option<string>, read: Option<Option<string>>)
    ensures Startup(kernel, read).isolated.configured !! GeneralCpus(Startup(kernel, read))
  {
    hide ParseCpuList, Strip;
    if read.Some? && AsksForGeneral(read.value) && NewProvider(None, kernel).Some? && NewProvider(read.value, kernel).Some? {
      PoolsExistWhenDisjoint(read.value, kernel);
    }
  }

  /** The general pool has CPUs exactly when the isolated CPUs are known and the operator's list
      is valid and avoids them; then it has just the listed CPUs. */
  lemma StartupGeneralCpus(kernel: Option<string>, read: Option<Option<string>>, cpus: set<nat>)
    requires cpus != {}
    ensures GeneralCpus(Startup(kernel, read)) == cpus <==>
            && NewProvider(None, kernel).Some?
            && read.Some? && AsksForGeneral(read.value)
            && ParseCpuList(read.value.value, None, false) == Some(cpus)
            && cpus !! NewProvider(None, kernel).value.configured
  {
    hide ParseCpuList, Strip;
    if read.Some? && AsksForGeneral(read.value) && NewProvider(None, kernel).Some? && NewProvider(read.value, kernel).Some? {
      PoolsExistWhenDisjoint(read.value, kernel);
    }
  }

  // ---------- Pools and the ledger ----------

  /** The host as requests see it between one startup and the next. */
  function HostOf(pools: Pools, online: Option<set<nat>>, recheck: Option<set<nat>>,
                  topology: Option<map<nat, set<nat>>>, siblings: SmtSelection.Siblings): Requests.Host
  {
    Requests.Host(pools.isolated.configured,
                  if pools.general.Some? then Some(pools.general.value.configured) else None,
                  online, recheck, topology, siblings)
  }

  /** A grant succeeds only while the claims of its pool lie in the pool that the daemon started
      with, it keeps them there, and so none of them is a CPU of the other pool. */
  lemma GrantsAvoidTheOtherPool(
    kernel: Option<string>, read: Option<Option<string>>, online: Option<set<nat>>, recheck: Option<set<nat>>,
    topology: Option<map<nat, set<nat>>>, siblings: SmtSelection.Siblings, request: Requests.Request, book: Ledger.Book)
    requires Ledger.WellFormed(book) && !Requests.Releases(request)
    requires Requests.Execute(request, HostOf(Startup(kernel, read), online, recheck, topology, siblings), book).Ok?
    ensures var pools := Startup(kernel, read);
            var after := Requests.Execute(request, HostOf(pools, online, recheck, topology, siblings), book).value.book;
            var claimed := Ledger.ClaimedIn(after, request.pool);
            if request.pool == Ledger.Isolated
            then claimed <= pools.isolated.configured && claimed !! GeneralCpus(pools)
            else claimed <= GeneralCpus(pools) && claimed !! pools.isolated.configured
  {
    hide Startup, Requests.Execute, Ledger.WellFormed, Ledger.ClaimedIn;
    Guarantees.PoolConfinement(request, HostOf(Startup(kernel, read), online, recheck, topology, siblings), book);
    StartupIsDisjoint(kernel, read);
  }

  // ---------- The configure hook ----------

  datatype Verdict = Rejected | Replayed | Recorded(normalized: string)

  /** `validate_snap_configuration` once both options have been read: `accepted` is the recorded
      one, `present` the content of the present-CPU file, `claimed` the CPUs owned in the general
      pool, `recordable` whether snapctl can write. */
  method ValidateConfiguration(
    configuration: Option<string>, accepted: Option<string>, kernel: Option<string>, present: Option<string>,
    claimed: set<nat>, recordable: bool) returns (verdict: Verdict)
    ensures verdict
         == Judge(Wanted(configuration), accepted, NewProvider(None, kernel), ReadCpuList(present), claimed, recordable)
  {
    hide ParseCpuList, Print, Strip;
    var normalized := "isolated";
    if AsksForGeneral(configuration) {
      var listed := ParseCpuList(configuration.value, None, false);
      if listed.None? {
        return Rejected;
      }
      normalized := Print(listed.value);
      if Some(normalized) != accepted {
        var topology := ReadCpuList(present);
        if topology.None? {
          return Rejected;
        }
        ListedWithin(configuration.value, topology.value);
        var again := ParseCpuList(configuration.value, topology, false);
        if again.None? {
          return Rejected;
        }
      }
    }
    if Some(normalized) == accepted {
      return Replayed;
    }
    if AsksForGeneral(configuration) && NewProvider(None, kernel).Some? {
      PoolsExistWhenDisjoint(configuration, kernel);
    }
    var pools := NewPools(configuration, kernel);
    if pools.None? {
      return Rejected;
    }
    if pools.value.general.Some? || claimed != {} {
      if pools.value.general.Some? { NothingExcluded(claimed, pools.value.general.value.configured); }
      if pools.value.general.None? || claimed - pools.value.general.value.configured != {} {
        return Rejected;
      }
    }
    verdict := if recordable then Recorded(normalized) else Rejected;
  }

  /** Parsing a listed set against a topology only asks whether the set is within it. */
  lemma ListedWithin(s: string, topology: set<nat>)
    requires ParseCpuList(s, None, false).Some?
    ensures ParseCpuList(s, Some(topology), false).Some? <==> ParseCpuList(s, None, false).value <= topology
  {
    hide ParseComponents, Expand, Split;
    BoundedIsSimple(Split(s, ','), None);
    BoundedIsSimple(Split(s, ','), Some(topology));
  }

  /** What a configuration asks for: no general pool, or one with the listed CPUs. */
  datatype Wish = Malformed | NoGeneralPool | GeneralPool(cpus: set<nat>)

  function Wanted(configuration: Option<string>): Wish {
    if !AsksForGeneral(configuration) then NoGeneralPool else
      match ParseCpuList(configuration.value, None, false)
      case None => Malformed
      case Some(cpus) => GeneralPool(cpus)
  }

  function Normal(wish: Wish): string
    requires !wish.Malformed?
  {
    if wish.NoGeneralPool? then "isolated" else Print(wish.cpus)
  }

  /** A new general pool must be present, avoid the isolated CPUs and keep every claim; giving
      the pool up needs it to be free of claims. */
  predicate Acceptable(wish: Wish, isolated: Option<Provider>, topology: Option<set<nat>>, claimed: set<nat>) {
    && isolated.Some?
    && match wish
       case Malformed => false
       case NoGeneralPool => claimed == {}
       case GeneralPool(cpus) =>
         topology.Some? && cpus <= topology.value && cpus !! isolated.value.configured && claimed <= cpus
  }

  function Judge(wish: Wish, accepted: Option<string>, isolated: Option<Provider>, topology: Option<set<nat>>,
                 claimed: set<nat>, recordable: bool): Verdict
  {
    if wish.Malformed? then Rejected
    else if accepted == Some(Normal(wish)) then Replayed
    else if Acceptable(wish, isolated, topology, claimed) && recordable then Recorded(Normal(wish))
    else Rejected
  }

  lemma IsolatedIsNotPrinted(cpus: set<nat>)
    ensures Print(cpus) != "isolated"
  {
    hide Print, ParseCpuRanges;
    RoundTrip(cpus);
    WordIsNoList("isolated");
  }

  lemma WordIsNoList(word: string)
    requires ',' !in word && '-' !in word && word != ""
    requires !IsDigit(word[0]) && !IsSpace(word[0]) && word[0] != '+' && !IsSpace(word[|word| - 1])
    ensures ParseCpuRanges(word) == None
  {
    SplitPrefix(word, "", ',');
    StripIdentity(word);
    hide Split, Strip, DropUnderscores;
    assert PyInt(word) == None;
    assert [word][0] == word;
  }

  /** The recorded text stands for the wish itself: a later configuration replays it exactly
      when it asks for the same pool, however it is written. */
  lemma ReplayedIffSameWish(
    earlier: Wish, later: Wish, isolated: Option<Provider>, topology: Option<set<nat>>, claimed: set<nat>,
    recordable: bool)
    requires !earlier.Malformed?
    ensures Judge(later, Some(Normal(earlier)), isolated, topology, claimed, recordable) == Replayed <==> later == earlier
  {
    if earlier.GeneralPool? { IsolatedIsNotPrinted(earlier.cpus); }
    if later.GeneralPool? { IsolatedIsNotPrinted(later.cpus); }
    if earlier.GeneralPool? && later.GeneralPool? {
      Canonical.PrintInjective(earlier.cpus, later.cpus);
    }
    hide Print;
  }

  /** A daemon that starts with a newly accepted configuration, under the same isolated CPUs,
      has the wished general pool and keeps every general claim within it. */
  lemma AcceptedThenStarted(
    configuration: Option<string>, accepted: Option<string>, kernel: Option<string>, topology: Option<set<nat>>,
    claimed: set<nat>, recordable: bool)
    requires Judge(Wanted(configuration), accepted, NewProvider(None, kernel), topology, claimed, recordable).Recorded?
    ensures claimed <= GeneralCpus(Startup(kernel, Some(configuration)))
    ensures match Wanted(configuration)
            case GeneralPool(cpus) => GeneralCpus(Startup(kernel, Some(configuration))) == cpus
            case NoGeneralPool => Startup(kernel, Some(configuration)).general == None
            case Malformed => false
  {
    hide ParseCpuList, Strip, Print;
    if AsksForGeneral(configuration) {
      PoolsExistWhenDisjoint(configuration, kernel);
    }
  }

  /** The hook's verdict, spelled out. A new configuration is recorded if and only if it can be
      written, the isolated CPUs are known, and either it asks for no general pool and nobody owns
      CPUs there, or its CPUs are present, none of them isolated, and all general claims among them. */
  lemma RecordedIff(
    configuration: Option<string>, accepted: Option<string>, kernel: Option<string>, present: Option<string>,
    claimed: set<nat>, recordable: bool)
    ensures var verdict := Judge(Wanted(configuration), accepted, NewProvider(None, kernel), ReadCpuList(present), claimed,
                                 recordable);
            var isolated := NewProvider(None, kernel);
            if configuration.None? || Strip(configuration.value) == "isolated" then
              && (verdict == Replayed <==> accepted == Some("isolated"))
              && (verdict.Recorded? <==> accepted != Some("isolated") && recordable && isolated.Some? && claimed == {})
              && (verdict.Recorded? ==> verdict.normalized == "isolated")
            else
              var listed := ParseCpuList(configuration.value, None, false);
              && (verdict == Replayed <==> listed.Some? && accepted == Some(Print(listed.value)))
              && (verdict.Recorded? <==>
                    && listed.Some? && accepted != Some(Print(listed.value)) && recordable && isolated.Some?
                    && ReadCpuList(present).Some? && listed.value <= ReadCpuList(present).value
                    && listed.value !! isolated.value.configured && claimed <= listed.value)
              && (verdict.Recorded? ==> verdict.normalized == Print(listed.value))
  {
    hide ParseCpuList, Print, NewProvider, ReadCpuList, Strip;
  }

  /** The isolated pool is what the kernel lists: nothing when the list is blank, its well-formed
      ranges up to the ID bound otherwise; it does not exist when the list cannot be read or is
      malformed. */
  lemma IsolatedPoolIs(kernel: Option<string>)
    ensures NewProvider(None, kernel).Some? <==>
            && kernel.Some?
            && (Strip(Strip(kernel.value)) == ""
                || (Expand(Split(Strip(kernel.value), ',')).Some?
                    && forall cpu :: cpu in Expand(Split(Strip(kernel.value), ',')).value ==> cpu <= 65535))
    ensures NewProvider(None, kernel).Some? ==>
            NewProvider(None, kernel).value.configured ==
            if Strip(Strip(kernel.value)) == "" then {} else Expand(Split(Strip(kernel.value), ',')).value
  {
    hide Split, Strip, Expand, ParseComponents;
    if kernel.Some? {
      BoundedIsSimple(Split(Strip(kernel.value), ','), None);
    }
  }

  /** After any startup the isolated pool is the kernel's list, empty if that is unusable, whatever
      the operator configured; and the general pool is unconfigured exactly when the option is unset
      or the word for it. */
  lemma StartupPoolsAre(kernel: Option<string>, read: Option<Option<string>>)
    ensures Startup(kernel, read).isolated.configured ==
            if NewProvider(None, kernel).Some? then NewProvider(None, kernel).value.configured else {}
    ensures Startup(kernel, read).isolated.source == FromKernel
    ensures Startup(kernel, read).general.Some? ==> Startup(kernel, read).general.value.source == FromOperator
    ensures Startup(kernel, read).general.None? <==>
            read == Some(None) || (read.Some? && read.value.Some? && Strip(read.value.value) == "isolated")
  {
    hide ParseCpuList, Strip;
  }

  // ---------- Where the parsers differ ----------

  lemma DashedText(a: string, b: string)
    requires AllDigits(a) && AllDigits(b)
    ensures var text := a + "-" + b;
            && '-' in text && text != "" && Strip(text) == text && Split(text, '-') == [a, b] && Split(text, ',')
               == [text]
  {
    hide Split, Strip, Value;
    var text := a + "-" + b;
    assert text == a + ['-'] + b && text[|a|] == '-';
    SplitPrefix(a, b, '-');
    SplitPrefix(b, "", '-');
    SplitPrefix(text, "", ',');
    StripIdentity(text);
  }

  lemma DescendingComponent(text: string, a: string, b: string)
    requires AllDigits(a) && AllDigits(b) && Value(a) > Value(b)
    requires '-' in text && text != "" && Strip(text) == text && Split(text, '-') == [a, b]
    ensures Part(text) == None && Pinning.InlineComponent(text) == Some({})
    ensures Bounds(Strip(text)) == Some(Range(Value(a), Value(b)))
  {
    hide Split, Strip, PyInt, Value, Span, StripLeft, StripRight;
    PyIntDigits(a);
    PyIntDigits(b);
    DigitsStrip(a);
    DigitsStrip(b);
    EmptySpan(Value(a), Value(b));
  }

  lemma OneComponent(text: string, present: Option<set<nat>>)
    ensures Part(text) == None ==> ParseParts([text]) == None
    ensures Bounds(Strip(text)).Some? && Bounds(Strip(text)).value.first > Bounds(Strip(text)).value.last ==>
              ParseComponents([text], present) == None
    ensures Pinning.InlineComponent(text) == Some({}) ==> Pinning.InlineParts([text]) == Some({})
  {
    hide Part, Bounds, Strip, Pinning.InlineComponent;
    assert [text][0] == text && [text][1..] == [];
    assert ParseParts([]) == Some({}) && Pinning.InlineParts([]) == Some({});
    if Pinning.InlineComponent(text) == Some({}) {
      var none: set<nat> := {};
      assert none + none == none;
    }
  }

  /** A descending range is an error for the printer's counterpart and the pool parser, and denotes
      nothing for the inline parser. */
  lemma DescendingRange(first: nat, last: nat, present: Option<set<nat>>, allowEmpty: bool)
    requires first > last
    ensures var text := Decimal(first) + "-" + Decimal(last);
            && ParseCpuRanges(text) == None && ParseCpuList(text, present, allowEmpty) == None
            && Pinning.InlineParse(text) == Some({})
  {
    hide Decimal, Split, Strip, Value, ParseParts, ParseComponents, Pinning.InlineParts, Part, Bounds,
      Pinning.InlineComponent;
    DashedText(Decimal(first), Decimal(last));
    DescendingComponent(Decimal(first) + "-" + Decimal(last), Decimal(first), Decimal(last));
    OneComponent(Decimal(first) + "-" + Decimal(last), present);
  }

  lemma EmptySpan(first: nat, last: nat)
    requires first > last
    ensures Span(first, last) == {}
  {
  }

  /** A blank component is skipped by the one parser and refused by the other. */
  lemma {:induction false} BlankComponents(parts: seq<string>, i: nat, present: Option<set<nat>>)
    requires i < |parts| && Strip(parts[i]) == ""
    ensures ParseParts(parts) == ParseParts(parts[..i] + parts[i + 1..])
    ensures ParseComponents(parts, present) == None
  {
    hide Strip, Component;
    var rest := parts[..i] + parts[i + 1..];
    if i == 0 {
      assert rest == parts[1..];
      NoBounds();
      if ParseParts(rest).Some? {
        assert {} + ParseParts(rest).value == ParseParts(rest).value;
      }
    } else {
      BlankComponents(parts[1..], i - 1, present);
      assert rest[0] == parts[0] && rest[1..] == parts[1..][..i - 1] + parts[1..][i..];
      hide Bounds;
    }
  }

  lemma NoBounds()
    ensures Bounds("") == None
  {
  }

  /** The newline that ends a kernel file does not matter. */
  lemma TrailingNewline(text: string)
    ensures ReadCpuList(Some(text + "\n")) == ReadCpuList(Some(text))
    ensures NewProvider(None, Some(text + "\n")) == NewProvider(None, Some(text))
  {
    hide Strip, Split, ParseComponents;
    assert text + "\n" == text + ['\n'];
    Pinning.StripRightBlank(text, '\n');
    Pinning.SplitAppend(text, '\n', ',');
    var parts, longer := Split(text, ','), Split(text + ['\n'], ',');
    forall i | 0 <= i < |parts| ensures Strip(longer[i]) == Strip(parts[i]) {
      if i == |parts| - 1 { Pinning.StripRightBlank(parts[i], '\n'); }
    }
    SameComponents(parts, longer, None);
  }

  lemma {:induction false} SameComponents(a: seq<string>, b: seq<string>, present: Option<set<nat>>)
    requires |a| == |b| && forall i :: 0 <= i < |a| ==> Strip(a[i]) == Strip(b[i])
    ensures ParseComponents(a, present) == ParseComponents(b, present)
  {
    hide Strip, Bounds, Accept;
    if a != [] {
      SameComponents(a[1..], b[1..], present);
    }
  }
}

/**
 The resource profiler of backend/app/core/resource_profiler.py: recording metrics by task, the
 summary of an organization, and dropping old metrics.

 `metrics` is the dict in its order. Fields that neither the summary nor the cleanup reads are left
 out. Costs are real numbers, and `round` is a parameter.
 */
module ResourceProfiling {
  import opened Basics
  import opened Options
  import Sorting

  datatype Metric = Metric(
    task: string, org: string, kind: string, duration: int, tokens: int, cost: real, ok: bool, at: int)

  /** What is added up over metrics. */
  datatype Group = Group(count: int, tokens: int, cost: real, duration: int)

  /** A dict from task types to groups, with its keys in order of insertion. */
  datatype Groups = Groups(kinds: seq<string>, of: map<string, Group>)

  datatype Summary = Summary(
    total: nat, successful: nat, failed: int, tokens: int, cost: real, avgDuration: int, avgTokens: int, avgCost: real,
    kinds: seq<string>, byKind: map<string, Group>)

  type Rounding = (real, nat) -> real

  // ---------------------------------------------------------------------------
  // Recording and cleaning up
  // ---------------------------------------------------------------------------

  /** `metrics[task_id] = m` keeps the place of a key that is there. */
  function Put(ms: seq<Metric>, m: Metric): seq<Metric> {
    if ms == [] then [m]
    else if ms[0].task == m.task then [m] + ms[1..]
    else [ms[0]] + Put(ms[1..], m)
  }

  function Newer(): (Metric, Metric) -> bool {
    (a: Metric, b: Metric) => a.at > b.at
  }

  /** `items[:k]` */
  function Slice(items: seq<Metric>, k: int): seq<Metric> {
    if k >= |items| then items
    else if k >= 0 then items[..k]
    else if |items| + k >= 0 then items[..|items| + k]
    else []
  }

  function Kept(ms: seq<Metric>, keepCount: int): seq<Metric> {
    if |ms| > keepCount then Slice(Sorting.Sort(Newer(), ms), keepCount) else ms
  }

  // ---------------------------------------------------------------------------
  // The summary
  // ---------------------------------------------------------------------------

  const ZERO := Group(0, 0, 0.0, 0)

  function Plus(a: Group, b: Group): Group {
    Group(a.count + b.count, a.tokens + b.tokens, a.cost + b.cost, a.duration + b.duration)
  }

  function One(): Metric -> Group {
    (m: Metric) => Group(1, m.tokens, m.cost, m.duration)
  }

  function Total<T>(f: T -> Group, xs: seq<T>): Group {
    if xs == [] then ZERO else Plus(Total(f, xs[..|xs| - 1]), f(xs[|xs| - 1]))
  }

  function OfOrg(ms: seq<Metric>, org: string): seq<Metric> {
    if ms == [] then []
    else
      var before, m := OfOrg(ms[..|ms| - 1], org), ms[|ms| - 1];
      if m.org == org then before + [m] else before
  }

  function CountOk(ms: seq<Metric>): nat {
    if ms == [] then 0 else CountOk(ms[..|ms| - 1]) + if ms[|ms| - 1].ok then 1 else 0
  }

  function GroupAt(g: Groups, kind: string): Group {
    if kind in g.of then g.of[kind] else ZERO
  }

  function AddTo(g: Groups, m: Metric): Groups {
    Groups(if m.kind in g.of then g.kinds else g.kinds + [m.kind],
           g.of[m.kind := Plus(GroupAt(g, m.kind), One()(m))])
  }

  function Grouped(ms: seq<Metric>): Groups {
    if ms == [] then Groups([], map[]) else AddTo(Grouped(ms[..|ms| - 1]), ms[|ms| - 1])
  }

  /** `max(n, 1)` */
  function Divisor(n: int): (d: int)
    ensures d >= 1
  {
    if n > 1 then n else 1
  }

  /** `int(a / max(n, 1))`: truncated towards zero. */
  function Average(a: int, n: int): int {
    if a >= 0 then a / Divisor(n) else -(-a / Divisor(n))
  }

  function Averaged(of: map<string, Group>): map<string, Group> {
    map k | k in of :: of[k].(duration := Average(of[k].duration, of[k].count))
  }

  /** None where the organization has no metrics. */
  function Summarized(ms: seq<Metric>, org: string, round: Rounding): Option<Summary> {
    var mine := OfOrg(ms, org);
    if mine == [] then None
    else
      var n, sum, g := |mine|, Total(One(), mine), Grouped(mine);
      Some(Summary(n, CountOk(mine), n - CountOk(mine), sum.tokens, round(sum.cost, 2),
                   Average(sum.duration, n), Average(sum.tokens, n), round(sum.cost / Divisor(n) as real, 4),
                   g.kinds, Averaged(g.of)))
  }

  class ResourceProfiler {
    var metrics: seq<Metric>

    constructor ()
      ensures metrics == []
    {
      metrics := [];
    }

    method RecordMetrics(task: string, org: string, kind: string, queued: int, execution: int, tokens: int,
                         cost: real, ok: bool, now: int)
      modifies this
      ensures metrics == Put(old(metrics), Metric(task, org, kind, queued + execution, tokens, cost, ok, now))
    {
      var m := Metric(task, org, kind, queued + execution, tokens, cost, ok, now);
      for i := 0 to |metrics|
        invariant metrics == old(metrics)
        invariant Put(metrics, m) == metrics[..i] + Put(metrics[i..], m)
      {
        if metrics[i].task == task {
          assert metrics[..i] + ([m] + metrics[i..][1..]) == metrics[i := m];
          metrics := metrics[i := m];
          return;
        }
        assert metrics[i..][1..] == metrics[i + 1..];
        assert metrics[..i] + ([metrics[i]] + Put(metrics[i + 1..], m)) == metrics[..i + 1] + Put(metrics[i + 1..], m);
      }
      assert metrics[..|metrics|] == metrics;
      metrics := metrics + [m];
    }

    method CleanupOldMetrics(keepCount: int)
      modifies this
      ensures metrics == Kept(old(metrics), keepCount)
    {
      if |metrics| > keepCount {
        var items := Sorting.Sort(Newer(), metrics);
        metrics := Slice(items, keepCount);
      }
    }

    method GetOrgSummary(org: string, round: Rounding) returns (r: Option<Summary>)
      ensures r == Summarized(metrics, org, round)
    {
      var mine := [];
      for i := 0 to |metrics|
        invariant mine == OfOrg(metrics[..i], org)
      {
        assert metrics[..i + 1][..i] == metrics[..i];
        if metrics[i].org == org {
          mine := mine + [metrics[i]];
        }
      }
      assert metrics[..|metrics|] == metrics;
      if mine == [] { return None; }
      var successful, tokens, cost, duration := SumUp(mine);
      var g := GroupByType(mine);
      var n := |mine|;
      r := Some(Summary(n, successful, n - successful, tokens, round(cost, 2),
                        Average(duration, n), Average(tokens, n), round(cost / Divisor(n) as real, 4),
                        g.kinds, Averaged(g.of)));
    }
  }

  method SumUp(mine: seq<Metric>) returns (successful: nat, tokens: int, cost: real, duration: int)
    ensures successful == CountOk(mine)
    ensures var sum := Total(One(), mine); tokens == sum.tokens && cost == sum.cost && duration == sum.duration
  {
    successful, tokens, cost, duration := 0, 0, 0.0, 0;
    for i := 0 to |mine|
      invariant successful == CountOk(mine[..i])
      invariant var sum := Total(One(), mine[..i]); tokens == sum.tokens && cost == sum.cost && duration == sum.duration
    {
      assert mine[..i + 1][..i] == mine[..i];
      if mine[i].ok {
        successful := successful + 1;
      }
      tokens := tokens + mine[i].tokens;
      cost := cost + mine[i].cost;
      duration := duration + mine[i].duration;
    }
    assert mine[..|mine|] == mine;
  }

  method GroupByType(mine: seq<Metric>) returns (g: Groups)
    ensures g == Grouped(mine)
  {
    g := Groups([], map[]);
    for i := 0 to |mine|
      invariant g == Grouped(mine[..i])
    {
      assert mine[..i + 1][..i] == mine[..i];
      var m := mine[i];
      ghost var before := g;
      if m.kind !in g.of {
        g := Groups(g.kinds + [m.kind], g.of[m.kind := Group(0, 0, 0.0, 0)]);
      }
      var data := g.of[m.kind];
      data := Group(data.count + 1, data.tokens + m.tokens, data.cost + m.cost, data.duration + m.duration);
      g := g.(of := g.of[m.kind := data]);
      assert g.of == before.of[m.kind := Plus(GroupAt(before, m.kind), One()(m))];
    }
    assert mine[..|mine|] == mine;
  }

  // ---------------------------------------------------------------------------
  // Any run of records and cleanups
  // ---------------------------------------------------------------------------

  datatype Event = Record(m: Metric) | Cleanup(keepCount: int)

  function Run(events: seq<Event>): seq<Metric> {
    if events == [] then []
    else
      var before := Run(events[..|events| - 1]);
      match events[|events| - 1]
      case Record(m) => Put(before, m)
      case Cleanup(k) => Kept(before, k)
  }

  ghost predicate OnePerTask(ms: seq<Metric>) {
    forall i, j :: 0 <= i < j < |ms| ==> ms[i].task != ms[j].task
  }

  lemma {:induction false} PutMembers(ms: seq<Metric>, m: Metric, x: Metric)
    requires OnePerTask(ms)
    ensures x in Put(ms, m) <==> x == m || (x in ms && x.task != m.task)
  {
    if ms != [] {
      PutMembers(ms[1..], m, x);
      assert ms == [ms[0]] + ms[1..];
      assert forall i :: 1 <= i < |ms| ==> ms[i].task != ms[0].task;
    }
  }

  lemma {:induction false} PutKeepsOnePerTask(ms: seq<Metric>, m: Metric)
    requires OnePerTask(ms)
    ensures OnePerTask(Put(ms, m))
  {
    if ms != [] && ms[0].task != m.task {
      PutKeepsOnePerTask(ms[1..], m);
      var r := Put(ms[1..], m);
      forall j | 0 <= j < |r| ensures r[j].task != ms[0].task {
        PutMembers(ms[1..], m, r[j]);
      }
    }
  }

  /** The order of `sorted(..., reverse=True)` by time. */
  lemma NewestFirst(ms: seq<Metric>)
    ensures var r := Sorting.Sort(Newer(), ms);
            && multiset(r) == multiset(ms)
            && forall i, j :: 0 <= i < j < |r| ==> r[i].at >= r[j].at
  {
    Sorting.SortKeeps(Newer(), ms);
    Sorting.SortSorts(Newer(), ms);
  }

  /** Tasks stay apart in a rearrangement. */
  lemma RearrangedOnePerTask(ms: seq<Metric>, r: seq<Metric>)
    requires OnePerTask(ms) && multiset(r) == multiset(ms)
    ensures OnePerTask(r)
  {
    Sorting.SameElements(r, ms);
    forall i, j | 0 <= i < j < |r| ensures r[i].task != r[j].task {
      assert r[i] in ms && r[j] in ms;
      AppearsOnce(ms, r[i]);
      assert r == r[..i] + [r[i]] + r[i + 1..j] + [r[j]] + r[j + 1..];
    }
  }

  lemma {:induction false} AppearsOnce(ms: seq<Metric>, m: Metric)
    requires OnePerTask(ms) && m in ms
    ensures multiset(ms)[m] == 1
  {
    assert ms == [ms[0]] + ms[1..];
    if ms[0] != m {
      AppearsOnce(ms[1..], m);
    } else {
      assert forall i :: 1 <= i < |ms| ==> ms[i].task != m.task;
    }
  }

  lemma PrefixIsNewest(r: seq<Metric>, kept: seq<Metric>)
    requires kept <= r && forall i, j :: 0 <= i < j < |r| ==> r[i].at >= r[j].at
    ensures forall m :: m in kept ==> m in r
    ensures forall m, x :: m in kept && x in r && x !in kept ==> m.at >= x.at
  {
    assert forall j :: 0 <= j < |kept| ==> r[j] == kept[j] && r[j] in kept;
    forall m, x | m in kept && x in r && x !in kept ensures m.at >= x.at {
      var i :| 0 <= i < |kept| && kept[i] == m;
      var j :| 0 <= j < |r| && r[j] == x;
      assert i < |kept| <= j && r[i] == m;
    }
  }

  lemma PrefixOnePerTask(r: seq<Metric>, kept: seq<Metric>)
    requires kept <= r && OnePerTask(r)
    ensures OnePerTask(kept)
  {
    assert forall i :: 0 <= i < |kept| ==> kept[i] == r[i];
  }

  /** A cleanup to `keepCount >= 0` leaves the smaller of that and what there is; whatever stays is unchanged,
      and nothing that goes is newer than what stays. */
  lemma CleanupKeepsTheNewest(ms: seq<Metric>, keepCount: int)
    requires OnePerTask(ms)
    ensures var kept := Kept(ms, keepCount);
            && OnePerTask(kept)
            && (keepCount >= 0 ==> |kept| == if |ms| <= keepCount then |ms| else keepCount)
            && (forall m :: m in kept ==> m in ms)
            && (forall m, x :: m in kept && x in ms && x !in kept ==> m.at >= x.at)
  {
    var r, kept := Sorting.Sort(Newer(), ms), Kept(ms, keepCount);
    NewestFirst(ms);
    RearrangedOnePerTask(ms, r);
    Sorting.SameElements(r, ms);
    if |ms| > keepCount {
      assert kept <= r;
      hide Kept, Sorting.Sort, OnePerTask;
      PrefixIsNewest(r, kept);
      PrefixOnePerTask(r, kept);
    }
  }

  /** After any run there is one entry for each task, so the dict is one. */
  lemma {:induction false} EveryRunKeepsOnePerTask(events: seq<Event>)
    ensures OnePerTask(Run(events))
  {
    if events != [] {
      EveryRunKeepsOnePerTask(events[..|events| - 1]);
      var before := Run(events[..|events| - 1]);
      match events[|events| - 1]
      case Record(m) => PutKeepsOnePerTask(before, m);
      case Cleanup(k) => CleanupKeepsTheNewest(before, k);
    }
  }

  // ---------------------------------------------------------------------------
  // The summary adds up
  // ---------------------------------------------------------------------------

  lemma {:induction false} KindsAreKeys(ms: seq<Metric>)
    ensures var g := Grouped(ms); Distinct(g.kinds) && forall k :: k in g.kinds <==> k in g.of
  {
    if ms != [] {
      KindsAreKeys(ms[..|ms| - 1]);
    }
  }

  /** The entries of one type. */
  function OfKind(ms: seq<Metric>, kind: string): seq<Metric> {
    if ms == [] then []
    else
      var before, m := OfKind(ms[..|ms| - 1], kind), ms[|ms| - 1];
      if m.kind == kind then before + [m] else before
  }

  lemma OneMoreTotal<T>(f: T -> Group, xs: seq<T>, x: T)
    ensures Total(f, xs + [x]) == Plus(Total(f, xs), f(x))
  {
    assert (xs + [x])[..|xs|] == xs;
  }

  /** There is a group for a type exactly when there are entries of the type, and it holds their totals. */
  lemma {:induction false} GroupHoldsItsType(ms: seq<Metric>, kind: string)
    ensures kind in Grouped(ms).of <==> OfKind(ms, kind) != []
    ensures GroupAt(Grouped(ms), kind) == Total(One(), OfKind(ms, kind))
  {
    if ms != [] {
      var init, m := ms[..|ms| - 1], ms[|ms| - 1];
      GroupHoldsItsType(init, kind);
      OneMoreTotal(One(), OfKind(init, kind), m);
    }
  }

  lemma {:induction false} TotalCounts(ms: seq<Metric>)
    ensures Total(One(), ms).count == |ms|
  {
    if ms != [] {
      TotalCounts(ms[..|ms| - 1]);
    }
  }

  /** Changing a function at one of the distinct keys changes the total by as much. */
  lemma {:induction false} TotalChangesAt(f: string -> Group, g: string -> Group, kinds: seq<string>, kind: string)
    requires Distinct(kinds) && forall k :: k != kind ==> f(k) == g(k)
    ensures if kind in kinds then Plus(Total(g, kinds), f(kind)) == Plus(Total(f, kinds), g(kind))
            else Total(g, kinds) == Total(f, kinds)
  {
    if kinds != [] {
      TotalChangesAt(f, g, kinds[..|kinds| - 1], kind);
      assert kinds == kinds[..|kinds| - 1] + [kinds[|kinds| - 1]];
    }
  }

  function In(g: Groups): string -> Group {
    k => GroupAt(g, k)
  }

  lemma Cancel(a: Group, b: Group, c: Group, d: Group)
    requires Plus(a, c) == Plus(b, Plus(c, d))
    ensures a == Plus(b, d)
  {
  }

  lemma AddedInItsGroup(g: Groups, m: Metric)
    ensures forall k :: k != m.kind ==> In(g)(k) == In(AddTo(g, m))(k)
    ensures In(AddTo(g, m))(m.kind) == Plus(In(g)(m.kind), One()(m))
    ensures m.kind !in g.of ==> In(g)(m.kind) == ZERO
  {
  }

  lemma OneMoreInItsGroup(g: Groups, m: Metric)
    requires Distinct(g.kinds) && forall k :: k in g.kinds <==> k in g.of
    ensures var h := AddTo(g, m); Total(In(h), h.kinds) == Plus(Total(In(g), g.kinds), One()(m))
  {
    var h := AddTo(g, m);
    assert h.kinds == if m.kind in g.of then g.kinds else g.kinds + [m.kind];
    AddedInItsGroup(g, m);
    hide AddTo, In, One, Total;
    TotalChangesAt(In(g), In(h), g.kinds, m.kind);
    if m.kind in g.of {
      Cancel(Total(In(h), g.kinds), Total(In(g), g.kinds), In(g)(m.kind), One()(m));
    } else {
      OneMoreTotal(In(h), g.kinds, m.kind);
    }
  }

  /** The groups of the types add up to the whole: counts, tokens, costs and durations. */
  lemma {:induction false} GroupsAddUp(ms: seq<Metric>)
    ensures var g := Grouped(ms); Total(In(g), g.kinds) == Total(One(), ms)
  {
    if ms != [] {
      var init := ms[..|ms| - 1];
      GroupsAddUp(init);
      KindsAreKeys(init);
      OneMoreInItsGroup(Grouped(init), ms[|ms| - 1]);
      hide AddTo, In;
    }
  }

  // ---------------------------------------------------------------------------
  // Averages
  // ---------------------------------------------------------------------------

  /** A truncated average brackets its total exactly when the total is not negative or divides evenly. */
  lemma AverageBrackets(a: int, n: int)
    requires n >= 1
    ensures n * Average(a, n) <= a < n * (Average(a, n) + 1) <==> a >= 0 || a % n == 0
  {
    var q := Average(a, n);
    if a >= 0 {
      assert a == n * (a / n) + a % n;
    } else {
      assert -a == n * (-a / n) + -a % n;
      assert a == n * q - (-a % n);
      if -a % n == 0 {
        MultipleHasNoRest(a, q, n);
      } else {
        var k := a / n;
        assert a == n * k + a % n;
        if a % n == 0 {
          assert -a == n * -k;
          MultipleHasNoRest(-a, -k, n);
        }
      }
    }
  }

  lemma MultipleHasNoRest(a: int, q: int, n: int)
    requires n >= 1 && a == n * q
    ensures a % n == 0
  {
    var k, r := a / n, a % n;
    assert n * (q - k) == r;
    MultipleIsNotSmaller(n, q - k);
  }

  lemma {:induction false} SuccessesWithin(ms: seq<Metric>)
    ensures CountOk(ms) <= |ms|
  {
    if ms != [] {
      SuccessesWithin(ms[..|ms| - 1]);
    }
  }

  // ---------------------------------------------------------------------------
  // The summary
  // ---------------------------------------------------------------------------

  function CountsOf(s: Summary): string -> Group {
    k => if k in s.byKind then s.byKind[k].(duration := 0) else ZERO
  }

  /** There is a summary exactly for an organization with metrics. Its successes and failures sum to the count,
      no count is negative, and the counts, tokens and costs of the types sum to the totals. */
  lemma SummaryAddsUp(ms: seq<Metric>, org: string, round: Rounding)
    ensures Summarized(ms, org, round).Some? <==> exists m :: m in ms && m.org == org
    ensures Summarized(ms, org, round).Some? ==>
              var s := Summarized(ms, org, round).value;
              var types := Total(CountsOf(s), s.kinds);
              && s.total == |OfOrg(ms, org)| && s.successful + s.failed == s.total && s.failed >= 0
              && (forall k :: k in s.kinds <==> k in s.byKind) && Distinct(s.kinds)
              && types.count == s.total && types.tokens == s.tokens && round(types.cost, 2) == s.cost
  {
    var mine := OfOrg(ms, org);
    OrgMembers(ms, org);
    if mine == [] {
      assert forall m :: m !in mine;
    } else {
      assert mine[0] in mine;
      SuccessesWithin(mine);
      TypesAddUp(mine, Summarized(ms, org, round).value);
      hide Total, Grouped, Averaged, Average, CountOk, OfOrg;
    }
  }

  lemma TypesAddUp(mine: seq<Metric>, s: Summary)
    requires s.kinds == Grouped(mine).kinds && s.byKind == Averaged(Grouped(mine).of)
    ensures (forall k :: k in s.kinds <==> k in s.byKind) && Distinct(s.kinds)
    ensures Total(CountsOf(s), s.kinds) == Total(One(), mine).(duration := 0) && Total(One(), mine).count == |mine|
  {
    hide Total, Grouped, Average;
    var g := Grouped(mine);
    KindsAreKeys(mine);
    GroupsAddUp(mine);
    TotalCounts(mine);
    SameButDurations(In(g), CountsOf(s), s.kinds);
  }

  lemma {:induction false} SameButDurations(f: string -> Group, g: string -> Group, xs: seq<string>)
    requires forall x :: g(x) == f(x).(duration := 0)
    ensures Total(g, xs) == Total(f, xs).(duration := 0)
  {
    if xs != [] {
      SameButDurations(f, g, xs[..|xs| - 1]);
    }
  }

  lemma {:induction false} OrgMembers(ms: seq<Metric>, org: string)
    ensures forall m :: m in OfOrg(ms, org) <==> m in ms && m.org == org
  {
    if ms != [] {
      OrgMembers(ms[..|ms| - 1], org);
      assert ms == ms[..|ms| - 1] + [ms[|ms| - 1]];
    }
  }

  lemma {:induction false} KindMembers(ms: seq<Metric>, kind: string)
    ensures forall m :: m in OfKind(ms, kind) <==> m in ms && m.kind == kind
  {
    if ms != [] {
      KindMembers(ms[..|ms| - 1], kind);
      assert ms == ms[..|ms| - 1] + [ms[|ms| - 1]];
    }
  }

  /** What a summary holds of some entries of one type. */
  ghost predicate Describes(group: Group, those: seq<Metric>) {
    var sum := Total(One(), those);
    && group.count == |those| >= 1 && group.tokens == sum.tokens && group.cost == sum.cost
    && (group.count * group.duration <= sum.duration < group.count * (group.duration + 1) <==>
          sum.duration >= 0 || sum.duration % group.count == 0)
  }

  lemma TotalsDescribe(those: seq<Metric>)
    requires those != []
    ensures var sum := Total(One(), those); Describes(sum.(duration := Average(sum.duration, sum.count)), those)
  {
    var sum := Total(One(), those);
    TotalCounts(those);
    hide Total, Average;
    AverageBrackets(sum.duration, sum.count);
  }

  lemma TypesAreDescribed(mine: seq<Metric>, kind: string)
    ensures var byKind, those := Averaged(Grouped(mine).of), OfKind(mine, kind);
            && (kind in byKind <==> those != [])
            && (kind in byKind ==> Describes(byKind[kind], those))
  {
    hide Total, Grouped, OfKind, Average, Describes;
    GroupHoldsItsType(mine, kind);
    if OfKind(mine, kind) != [] {
      TotalsDescribe(OfKind(mine, kind));
    }
  }

  /** In every summary a type appears exactly when the organization has entries of it, and holds their number,
      which is at least one, their tokens and their cost; its average brackets their durations exactly when those
      do not sum to a negative number or divide evenly. */
  lemma SummaryByType(ms: seq<Metric>, org: string, round: Rounding, kind: string)
    requires Summarized(ms, org, round).Some?
    ensures var s, those := Summarized(ms, org, round).value, OfKind(OfOrg(ms, org), kind);
            && (forall m :: m in those <==> m in ms && m.org == org && m.kind == kind)
            && (kind in s.byKind <==> those != [])
            && (kind in s.byKind ==> Describes(s.byKind[kind], those))
  {
    OrgMembers(ms, org);
    KindMembers(OfOrg(ms, org), kind);
    TypesAreDescribed(OfOrg(ms, org), kind);
    hide Total, Grouped, Averaged, Average, OfOrg, OfKind, CountOk, Describes;
  }
}

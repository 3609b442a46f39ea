/**
 The groups of the stats report: manifests in descending execution time, each put into
 the group with the lowest runtime so far.
 */
module Schedule {
  import opened Sorting

  /** A sub test of the report root; `ref` stands for its identity. Times are in nanoseconds. */
  datatype SubTest = SubTest(ref: nat, name: string, start: int, time: nat)

  /** An entry of the stats report. */
  datatype Manifest = Manifest(group: nat, test: SubTest)

  /** 9999 hours. */
  const SENTINEL: int := 9999 * 3600 * 1_000_000_000

  // ---------- the lowest group ----------

  /** The scan over the first n groups: the group chosen and the lowest duration seen. */
  ghost function LowestUpTo(runtimes: seq<int>, n: nat): (r: (nat, int))
    requires n <= |runtimes|
    ensures r.0 < |runtimes| || r.0 == 0
  {
    if n == 0 then (0, SENTINEL)
    else
      var (group, lowest) := LowestUpTo(runtimes, n - 1);
      if runtimes[n - 1] < lowest then (n - 1, runtimes[n - 1]) else (group, lowest)
  }

  ghost function LowestGroup(runtimes: seq<int>): (g: nat)
    ensures g < |runtimes| || g == 0
  {
    LowestUpTo(runtimes, |runtimes|).0
  }

  ghost predicate IsMinimum(runtimes: seq<int>, g: nat) {
    g < |runtimes| && forall h :: 0 <= h < |runtimes| ==> runtimes[g] <= runtimes[h]
  }

  lemma {:induction false} LowestUpToSpec(runtimes: seq<int>, n: nat)
    requires n <= |runtimes|
    ensures var (g, low) := LowestUpTo(runtimes, n);
      && (forall h :: 0 <= h < n ==> low <= runtimes[h])
      && if exists h :: 0 <= h < n && runtimes[h] < SENTINEL
         then g < n && low == runtimes[g] < SENTINEL && forall h :: 0 <= h < g ==> runtimes[h] > low
         else g == 0 && low == SENTINEL
  {
    if n > 0 {
      LowestUpToSpec(runtimes, n - 1);
    }
  }

  /** The scan finds a lowest group exactly when a group is below 9999 hours or the first group is lowest. */
  lemma LowestGroupIff(runtimes: seq<int>)
    requires |runtimes| > 0
    ensures IsMinimum(runtimes, LowestGroup(runtimes)) <==>
      (exists h :: 0 <= h < |runtimes| && runtimes[h] < SENTINEL) || IsMinimum(runtimes, 0)
  {
    LowestUpToSpec(runtimes, |runtimes|);
  }

  /** It is the first of the lowest groups below 9999 hours, or group 0 if there are none. */
  lemma LowestGroupIs(runtimes: seq<int>)
    requires |runtimes| > 0
    ensures var g, limit := LowestGroup(runtimes), 9999 * 3600 * 1_000_000_000;
      if exists h :: 0 <= h < |runtimes| && runtimes[h] < limit
      then IsMinimum(runtimes, g) && forall h :: 0 <= h < g ==> runtimes[h] > runtimes[g]
      else g == 0
  {
    LowestUpToSpec(runtimes, |runtimes|);
  }

  /** getLowestRuntimeGroup; it panics when there is no group. */
  method GetLowestRuntimeGroup(runtimes: array<int>) returns (group: nat)
    requires runtimes.Length > 0
    ensures group == LowestGroup(runtimes[..]) && group < runtimes.Length
  {
    group := 0;
    var lowest := SENTINEL;
    for i := 0 to runtimes.Length
      invariant (group, lowest) == LowestUpTo(runtimes[..], i) && group < runtimes.Length
    {
      if runtimes[i] < lowest {
        group, lowest := i, runtimes[i];
      }
    }
  }

  // ---------- sums over groups ----------

  /** The weight of everything placed in group g. */
  ghost function Load(ms: seq<Manifest>, w: SubTest -> nat, g: nat): nat {
    if ms == [] then 0
    else
      var last := ms[|ms| - 1];
      Load(ms[..|ms| - 1], w, g) + if last.group == g then w(last.test) else 0
  }

  ghost function Total(ms: seq<Manifest>, w: SubTest -> nat): nat {
    if ms == [] then 0 else Total(ms[..|ms| - 1], w) + w(ms[|ms| - 1].test)
  }

  /** The sum of the first k groups' loads. */
  ghost function GroupSum(ms: seq<Manifest>, w: SubTest -> nat, k: nat): nat {
    if k == 0 then 0 else GroupSum(ms, w, k - 1) + Load(ms, w, k - 1)
  }

  ghost predicate InGroups(ms: seq<Manifest>, m: nat) {
    forall i :: 0 <= i < |ms| ==> ms[i].group < m
  }

  lemma {:induction false} GroupSumAppend(ms: seq<Manifest>, x: Manifest, w: SubTest -> nat, k: nat)
    ensures GroupSum(ms + [x], w, k) == GroupSum(ms, w, k) + if x.group < k then w(x.test) else 0
  {
    if k > 0 {
      GroupSumAppend(ms, x, w, k - 1);
      assert (ms + [x])[..|ms|] == ms;
    }
  }

  lemma {:induction false} GroupSumEmpty(w: SubTest -> nat, k: nat)
    ensures GroupSum([], w, k) == 0
  {
    if k > 0 {
      GroupSumEmpty(w, k - 1);
    }
  }

  /** Nothing is lost or counted twice: the group loads add up to the total. */
  lemma {:induction false} Conservation(ms: seq<Manifest>, w: SubTest -> nat, m: nat)
    requires InGroups(ms, m)
    ensures GroupSum(ms, w, m) == Total(ms, w)
  {
    if ms == [] {
      GroupSumEmpty(w, m);
    } else {
      SplitLast(ms);
      Conservation(ms[..|ms| - 1], w, m);
      GroupSumAppend(ms[..|ms| - 1], ms[|ms| - 1], w, m);
    }
  }

  lemma {:induction false} GroupSumAtMost(ms: seq<Manifest>, w: SubTest -> nat, k: nat, c: nat)
    requires forall g: nat :: g < k ==> Load(ms, w, g) <= c
    ensures GroupSum(ms, w, k) <= k * c
  {
    if k > 0 {
      GroupSumAtMost(ms, w, k - 1, c);
      assert k * c == (k - 1) * c + c;
    }
  }

  lemma {:induction false} GroupSumAtLeast(ms: seq<Manifest>, w: SubTest -> nat, k: nat, c: nat)
    requires forall g: nat :: g < k ==> Load(ms, w, g) >= c
    ensures GroupSum(ms, w, k) >= k * c
  {
    if k > 0 {
      GroupSumAtLeast(ms, w, k - 1, c);
      assert k * c == (k - 1) * c + c;
    }
  }

  /** Loads and totals depend on the entries, not on their order. */
  lemma {:induction false} InsertLoad(ms: seq<Manifest>, x: Manifest, key: Manifest -> int, w: SubTest -> nat, g: nat)
    ensures Load(Insert(ms, x, key), w, g) == Load(ms + [x], w, g)
    ensures Total(Insert(ms, x, key), w) == Total(ms + [x], w)
  {
    assert (ms + [x])[..|ms|] == ms;
    if ms != [] && key(ms[|ms| - 1]) > key(x) {
      var front, last := ms[..|ms| - 1], ms[|ms| - 1];
      InsertLoad(front, x, key, w, g);
      assert (front + [x])[..|front|] == front;
      var r := Insert(front, x, key);
      assert (r + [last])[..|r|] == r;
    }
  }

  lemma {:induction false} SortLoad(ms: seq<Manifest>, key: Manifest -> int, w: SubTest -> nat, g: nat)
    ensures Load(Sort(ms, key), w, g) == Load(ms, w, g)
    ensures Total(Sort(ms, key), w) == Total(ms, w)
  {
    if ms != [] {
      var front, last := ms[..|ms| - 1], ms[|ms| - 1];
      SortLoad(front, key, w, g);
      var s := Sort(front, key);
      InsertLoad(s, last, key, w, g);
      assert (s + [last])[..|s|] == s;
    }
  }

  // ---------- the plan ----------

  ghost function Runtime(t: SubTest): nat {
    t.time
  }

  /** Sorting by this key puts the longest execution time first. */
  function Slowest(t: SubTest): int {
    0 - t.time as int
  }

  function Started(m: Manifest): int {
    m.test.start
  }

  ghost function Loads(ms: seq<Manifest>, m: nat): seq<int> {
    seq(m, g requires 0 <= g < m => Load(ms, Runtime, g))
  }

  /** One manifest after the other goes to the group the scan picks. */
  ghost function Plan(tests: seq<SubTest>, m: nat): (ms: seq<Manifest>)
    requires m > 0
    ensures |ms| == |tests| && InGroups(ms, m)
    ensures forall i :: 0 <= i < |tests| ==> ms[i].test == tests[i]
  {
    if tests == [] then []
    else
      var before := Plan(tests[..|tests| - 1], m);
      before + [Manifest(LowestGroup(Loads(before, m)), tests[|tests| - 1])]
  }

  /** The tests under an arbitrary assignment of tests to groups. */
  ghost function Assigned(tests: seq<SubTest>, assign: SubTest -> nat): (ms: seq<Manifest>)
    ensures |ms| == |tests|
    ensures forall i :: 0 <= i < |tests| ==> ms[i] == Manifest(assign(tests[i]), tests[i])
  {
    seq(|tests|, i requires 0 <= i < |tests| => Manifest(assign(tests[i]), tests[i]))
  }

  ghost predicate SameTests(ms: seq<Manifest>, os: seq<Manifest>) {
    |ms| == |os| && forall i :: 0 <= i < |ms| ==> ms[i].test == os[i].test
  }

  lemma {:induction false} SameTotal(ms: seq<Manifest>, os: seq<Manifest>, w: SubTest -> nat)
    requires SameTests(ms, os)
    ensures Total(ms, w) == Total(os, w)
  {
    if ms != [] {
      SameTotal(ms[..|ms| - 1], os[..|os| - 1], w);
    }
  }

  ghost predicate AtMost(ms: seq<Manifest>, m: nat, bound: nat) {
    forall g: nat :: g < m ==> Load(ms, Runtime, g) <= bound
  }

  /** Total time below what makes every group reach the sentinel. */
  ghost predicate BelowSentinel(ms: seq<Manifest>, m: nat) {
    Total(ms, Runtime) < m * SENTINEL
  }

  /** Below the sentinel the group picked is a lowest one. */
  lemma PicksMinimum(ms: seq<Manifest>, m: nat)
    requires m > 0 && InGroups(ms, m) && BelowSentinel(ms, m)
    ensures IsMinimum(Loads(ms, m), LowestGroup(Loads(ms, m)))
  {
    var loads := Loads(ms, m);
    if forall h :: 0 <= h < m ==> loads[h] >= SENTINEL {
      forall g: nat | g < m ensures Load(ms, Runtime, g) >= SENTINEL {
        assert loads[g] >= SENTINEL;
      }
      GroupSumAtLeast(ms, Runtime, m, SENTINEL);
      Conservation(ms, Runtime, m);
    }
    LowestGroupIff(loads);
  }

  // ---------- spread ----------

  /** Any two groups differ by at most the longest single execution time. */
  lemma {:induction false} Spread(tests: seq<SubTest>, m: nat, longest: nat)
    requires m > 0 && BelowSentinel(Plan(tests, m), m)
    requires forall i :: 0 <= i < |tests| ==> tests[i].time <= longest
    ensures forall g: nat, h: nat :: g < m && h < m ==>
      Load(Plan(tests, m), Runtime, g) <= Load(Plan(tests, m), Runtime, h) + longest
  {
    if tests != [] {
      var n := |tests| - 1;
      var before, ms := Plan(tests[..n], m), Plan(tests, m);
      assert ms[..n] == before;
      Spread(tests[..n], m, longest);
      PicksMinimum(before, m);
      var loads := Loads(before, m);
      forall g: nat, h: nat | g < m && h < m
        ensures Load(ms, Runtime, g) <= Load(ms, Runtime, h) + longest
      {
        assert loads[h] == Load(before, Runtime, h) && loads[g] == Load(before, Runtime, g);
      }
    }
  }

  // ---------- Graham's bound ----------

  /** Weight 2 for a job that fits with no job of the smallest length p under the bound, else 1. */
  ghost function Weight(p: nat, bound: nat): SubTest -> nat {
    (t: SubTest) => if t.time + p > bound then 2 else 1
  }

  /** In a group that keeps the bound, jobs longer than a third of it weigh at most 2. */
  lemma {:induction false} FullGroup(os: seq<Manifest>, g: nat, p: nat, bound: nat)
    requires 3 * p > bound && forall i :: 0 <= i < |os| ==> os[i].test.time >= p
    ensures var load, weight := Load(os, Runtime, g), Load(os, Weight(p, bound), g);
      && (weight == 1 ==> load >= p)
      && (weight == 2 ==> load >= 2 * p || load + p > bound)
      && (weight > 2 ==> load > bound)
  {
    if os != [] {
      FullGroup(os[..|os| - 1], g, p, bound);
    }
  }

  /** A group with no room for a job of length p weighs at least 2. */
  lemma {:induction false} NoRoomGroup(ms: seq<Manifest>, g: nat, p: nat, bound: nat)
    requires p <= bound
    ensures var load, weight := Load(ms, Runtime, g), Load(ms, Weight(p, bound), g);
      && (weight == 0 ==> load == 0)
      && (weight == 1 ==> load + p <= bound)
  {
    if ms != [] {
      NoRoomGroup(ms[..|ms| - 1], g, p, bound);
    }
  }

  /**
   When the last job is the shortest and longer than a third of the bound, some group has
   room for it: otherwise the jobs would weigh more than the bounded assignment can hold.
   */
  lemma LongJobFits(before: seq<Manifest>, t: SubTest, os: seq<Manifest>, m: nat, g: nat, bound: nat)
    requires InGroups(before, m) && InGroups(os, m) && g < m
    requires |os| == |before| + 1 && SameTests(before, os[..|before|]) && os[|before|].test == t
    requires forall i :: 0 <= i < |os| ==> os[i].test.time >= t.time
    requires AtMost(os, m, bound) && 3 * t.time > bound
    requires IsMinimum(Loads(before, m), g)
    ensures Load(before, Runtime, g) + t.time <= bound
  {
    var p := t.time;
    var w := Weight(p, bound);
    assert Load(os, Runtime, os[|before|].group) <= bound;
    if Load(before, Runtime, g) + p > bound {
      var loads := Loads(before, m);
      forall h: nat | h < m ensures Load(before, w, h) >= 2 {
        assert loads[g] <= loads[h];
        NoRoomGroup(before, h, p, bound);
      }
      GroupSumAtLeast(before, w, m, 2);
      Conservation(before, w, m);
      forall h: nat | h < m ensures Load(os, w, h) <= 2 {
        FullGroup(os, h, p, bound);
      }
      GroupSumAtMost(os, w, m, 2);
      Conservation(os, w, m);
      SameTotal(before, os[..|before|], w);
    }
  }

  /** The load is at most 4/3 - 1/(3m) of the bound. */
  ghost predicate NearBest(load: nat, m: nat, bound: nat) {
    3 * m * load <= (4 * m - 1) * bound
  }

  /** A short last job is bounded by the average: m * load + p <= total <= m * bound. */
  lemma ShortJobBound(load: nat, p: nat, m: nat, total: nat, bound: nat)
    requires m > 0 && 3 * p <= bound && m * load + p <= total <= m * bound
    ensures NearBest(load + p, m, bound)
  {
    Product(m - 1, 3 * p, bound);
    assert (m - 1) * (3 * p) == 3 * (m * p) - 3 * p;
    assert (m - 1) * bound == m * bound - bound;
    assert 3 * m * (load + p) == 3 * (m * load) + 3 * (m * p);
    assert (4 * m - 1) * bound == 4 * (m * bound) - bound;
  }

  lemma Product(k: nat, a: nat, b: nat)
    requires a <= b
    ensures k * a <= k * b
  {
  }

  lemma LongJobBound(load: nat, m: nat, bound: nat)
    requires m > 0 && load <= bound
    ensures NearBest(load, m, bound)
  {
    assert (3 * m) * load <= (3 * m) * bound;
    assert (4 * m - 1) * bound == (3 * m) * bound + (m - 1) * bound;
  }

  ghost predicate Descending(tests: seq<SubTest>) {
    forall i, j :: 0 <= i < j < |tests| ==> tests[i].time >= tests[j].time
  }

  lemma NothingNearBest(m: nat, bound: nat)
    requires m > 0
    ensures NearBest(0, m, bound)
  {
    Product(bound, 0, 4 * m - 1);
  }

  /** The bound for manifests already in descending order. */
  lemma {:induction false} SortedBound(tests: seq<SubTest>, os: seq<Manifest>, m: nat, bound: nat, g: nat)
    requires m > 0 && g < m && Descending(tests) && BelowSentinel(Plan(tests, m), m)
    requires SameTests(Plan(tests, m), os) && InGroups(os, m) && AtMost(os, m, bound)
    ensures NearBest(Load(Plan(tests, m), Runtime, g), m, bound)
  {
    if tests == [] {
      NothingNearBest(m, bound);
    } else {
      var n := |tests| - 1;
      var before := Plan(tests[..n], m);
      PlanLast(tests, m);
      AtMostPrefix(os, m, bound);
      if LowestGroup(Loads(before, m)) == g {
        PicksMinimum(before, m);
        SortedStep(before, tests[n], os, m, bound, g);
      } else {
        SortedBound(tests[..n], os[..n], m, bound, g);
      }
    }
  }

  /** The plan before the last test, and what that test adds to it. */
  lemma PlanLast(tests: seq<SubTest>, m: nat)
    requires m > 0 && tests != [] && BelowSentinel(Plan(tests, m), m)
    ensures var n, ms := |tests| - 1, Plan(tests, m);
      var before := Plan(tests[..n], m);
      && ms[..n] == before && BelowSentinel(before, m)
      && forall g: nat :: Load(ms, Runtime, g) ==
           if g == LowestGroup(Loads(before, m)) then Load(before, Runtime, g) + tests[n].time else Load(before, Runtime, g)
  {
    assert Plan(tests, m)[..|tests| - 1] == Plan(tests[..|tests| - 1], m);
  }

  lemma AtMostPrefix(os: seq<Manifest>, m: nat, bound: nat)
    requires os != [] && AtMost(os, m, bound)
    ensures AtMost(os[..|os| - 1], m, bound)
  {
    var front := os[..|os| - 1];
    forall g: nat | g < m ensures Load(front, Runtime, g) <= bound {
      assert Load(os, Runtime, g) <= bound;
    }
  }

  /** The bound for the group that receives the last, shortest job. */
  lemma SortedStep(before: seq<Manifest>, t: SubTest, os: seq<Manifest>, m: nat, bound: nat, g: nat)
    requires InGroups(before, m) && InGroups(os, m) && g < m
    requires |os| == |before| + 1 && SameTests(before, os[..|before|]) && os[|before|].test == t
    requires forall i :: 0 <= i < |os| ==> os[i].test.time >= t.time
    requires AtMost(os, m, bound) && IsMinimum(Loads(before, m), g)
    ensures NearBest(Load(before, Runtime, g) + t.time, m, bound)
  {
    var load := Load(before, Runtime, g);
    if 3 * t.time > bound {
      LongJobFits(before, t, os, m, g, bound);
      LongJobBound(load + t.time, m, bound);
    } else {
      var loads := Loads(before, m);
      forall h: nat | h < m ensures Load(before, Runtime, h) >= load {
        assert loads[g] <= loads[h];
      }
      GroupSumAtLeast(before, Runtime, m, load);
      Conservation(before, Runtime, m);
      GroupSumAtMost(os, Runtime, m, bound);
      Conservation(os, Runtime, m);
      SameTotal(before, os[..|before|], Runtime);
      ShortJobBound(load, t.time, m, Total(os, Runtime), bound);
    }
  }

  // ---------- the report ----------

  ghost function SortedPlan(tests: seq<SubTest>, m: nat): seq<Manifest>
    requires m > 0
  {
    Plan(Sort(tests, Slowest), m)
  }

  lemma {:induction false} InsertAssigned(s: seq<SubTest>, x: SubTest, assign: SubTest -> nat, w: SubTest -> nat, g: nat)
    ensures Load(Assigned(Insert(s, x, Slowest), assign), w, g) == Load(Assigned(s + [x], assign), w, g)
  {
    AssignedAppend(s, x, assign);
    if s != [] && Slowest(s[|s| - 1]) > Slowest(x) {
      var front, last := s[..|s| - 1], s[|s| - 1];
      InsertAssigned(front, x, assign, w, g);
      SplitLast(s);
      AssignedAppend(front, x, assign);
      AssignedAppend(front, last, assign);
      AssignedAppend(Insert(front, x, Slowest), last, assign);
    }
  }

  lemma AssignedAppend(s: seq<SubTest>, x: SubTest, assign: SubTest -> nat)
    ensures Assigned(s + [x], assign) == Assigned(s, assign) + [Manifest(assign(x), x)]
    ensures Assigned(s + [x], assign)[..|s|] == Assigned(s, assign)
  {
  }

  /** Sorting the tests leaves the loads of an assignment as they are. */
  lemma {:induction false} SortAssigned(s: seq<SubTest>, assign: SubTest -> nat, w: SubTest -> nat, g: nat)
    ensures Load(Assigned(Sort(s, Slowest), assign), w, g) == Load(Assigned(s, assign), w, g)
  {
    if s != [] {
      var front, last := s[..|s| - 1], s[|s| - 1];
      SortAssigned(front, assign, w, g);
      InsertAssigned(Sort(front, Slowest), last, assign, w, g);
      AssignedAppend(Sort(front, Slowest), last, assign);
      AssignedAppend(front, last, assign);
      SplitLast(s);
    }
  }

  lemma {:induction false} SortTotal(s: seq<SubTest>, m: nat)
    requires m > 0
    ensures Total(SortedPlan(s, m), Runtime) == Total(Assigned(s, t => 0), Runtime)
  {
    var zero := (t: SubTest) => 0;
    SortAssigned(s, zero, Runtime, 0);
    Conservation(Assigned(s, zero), Runtime, 1);
    Conservation(Assigned(Sort(s, Slowest), zero), Runtime, 1);
    SameTotal(SortedPlan(s, m), Assigned(Sort(s, Slowest), zero), Runtime);
  }

  /** The summed execution time of the sub tests. */
  ghost function TotalTime(tests: seq<SubTest>): nat {
    if tests == [] then 0 else TotalTime(tests[..|tests| - 1]) + tests[|tests| - 1].time
  }

  lemma {:induction false} TotalTimeIs(tests: seq<SubTest>, assign: SubTest -> nat)
    ensures Total(Assigned(tests, assign), Runtime) == TotalTime(tests)
  {
    if tests != [] {
      var front := tests[..|tests| - 1];
      TotalTimeIs(front, assign);
      AssignedAppend(front, tests[|tests| - 1], assign);
      SplitLast(tests);
    }
  }

  /** The report's groups add up to the time of all sub tests, in their original order. */
  lemma PlanConserves(tests: seq<SubTest>, m: nat)
    requires m > 0
    ensures Total(SortedPlan(tests, m), Runtime) == TotalTime(tests)
    ensures GroupSum(SortedPlan(tests, m), Runtime, m) == TotalTime(tests)
  {
    SortTotal(tests, m);
    TotalTimeIs(tests, t => 0);
    Conservation(SortedPlan(tests, m), Runtime, m);
  }

  lemma SortDescending(tests: seq<SubTest>)
    ensures Descending(Sort(tests, Slowest))
  {
    var sorted := Sort(tests, Slowest);
    SortSorted(tests, Slowest);
    forall i, j | 0 <= i < j < |sorted| ensures sorted[i].time >= sorted[j].time {
      assert Slowest(sorted[i]) <= Slowest(sorted[j]);
    }
  }

  /** The sorted tests go to the same groups. */
  lemma SortInGroups(tests: seq<SubTest>, m: nat, assign: SubTest -> nat)
    requires forall i :: 0 <= i < |tests| ==> assign(tests[i]) < m
    ensures InGroups(Assigned(Sort(tests, Slowest), assign), m)
  {
    var sorted := Sort(tests, Slowest);
    SortMultiset(tests, Slowest);
    forall i | 0 <= i < |sorted| ensures assign(sorted[i]) < m {
      assert sorted[i] in multiset(tests);
    }
  }

  lemma SortAtMost(tests: seq<SubTest>, m: nat, assign: SubTest -> nat, bound: nat)
    requires AtMost(Assigned(tests, assign), m, bound)
    ensures AtMost(Assigned(Sort(tests, Slowest), assign), m, bound)
  {
    var before, after := Assigned(tests, assign), Assigned(Sort(tests, Slowest), assign);
    forall h: nat | h < m ensures Load(after, Runtime, h) <= bound {
      SortAssigned(tests, assign, Runtime, h);
      assert Load(before, Runtime, h) <= bound;
    }
  }

  /**
   Graham's bound for longest-processing-time scheduling: no assignment of the same sub
   tests to m groups has a largest runtime below 3m / (4m - 1) of the report's.
   */
  lemma GrahamBound(tests: seq<SubTest>, m: nat, assign: SubTest -> nat, bound: nat, g: nat)
    requires m > 0 && g < m && TotalTime(tests) < m * SENTINEL
    requires forall i :: 0 <= i < |tests| ==> assign(tests[i]) < m
    requires AtMost(Assigned(tests, assign), m, bound)
    ensures 3 * m * Load(SortedPlan(tests, m), Runtime, g) <= (4 * m - 1) * bound
  {
    var sorted := Sort(tests, Slowest);
    var os := Assigned(sorted, assign);
    PlanConserves(tests, m);
    SortDescending(tests);
    SortInGroups(tests, m, assign);
    SortAtMost(tests, m, assign, bound);
    SortedBound(sorted, os, m, bound, g);
  }

  /** Conservation and spread of what the report lists, after its final sort by start time. */
  lemma ReportGroups(tests: seq<SubTest>, m: nat, longest: nat)
    requires m > 0 && TotalTime(tests) < m * SENTINEL
    requires forall i :: 0 <= i < |tests| ==> tests[i].time <= longest
    ensures var listed := Sort(SortedPlan(tests, m), Started);
      && (forall i :: 0 <= i < |listed| ==> listed[i].group < m)
      && multiset(TestsOf(listed)) == multiset(tests)
      && ListedByStart(listed)
      && GroupSum(listed, Runtime, m) == TotalTime(tests)
      && forall g: nat, h: nat :: g < m && h < m ==> Load(listed, Runtime, g) <= Load(listed, Runtime, h) + longest
  {
    var plan := SortedPlan(tests, m);
    var listed := Sort(plan, Started);
    PlanConserves(tests, m);
    SortMultiset(plan, Started);
    SortMultiset(tests, Slowest);
    forall i | 0 <= i < |listed| ensures listed[i].group < m {
      assert listed[i] in multiset(plan);
    }
    ListingByStart(tests, m);
    SameTestsOf(plan, Sort(tests, Slowest));
    SortTestsOf(plan);
    forall g: nat ensures Load(listed, Runtime, g) == Load(plan, Runtime, g) {
      SortLoad(plan, Started, Runtime, g);
    }
    SortLoad(plan, Started, Runtime, 0);
    Conservation(listed, Runtime, m);
    forall i | 0 <= i < |tests| ensures Sort(tests, Slowest)[i].time <= longest {
      assert Sort(tests, Slowest)[i] in multiset(tests);
    }
    Spread(Sort(tests, Slowest), m, longest);
  }

  /** Entries in the order of their start times, and entries that start together in descending execution time. */
  ghost predicate ListedByStart(listed: seq<Manifest>) {
    forall i, j :: 0 <= i < j < |listed| ==>
      && listed[i].test.start <= listed[j].test.start
      && (listed[i].test.start == listed[j].test.start ==> listed[i].test.time >= listed[j].test.time)
  }

  lemma ListingByStart(tests: seq<SubTest>, m: nat)
    requires m > 0
    ensures ListedByStart(Sort(SortedPlan(tests, m), Started))
  {
    var plan := SortedPlan(tests, m);
    var p := SortPositions(plan, Started);
    SortDescending(tests);
    var listed := Sort(plan, Started);
    forall i, j | 0 <= i < j < |listed|
      ensures listed[i].test.start <= listed[j].test.start
      ensures listed[i].test.start == listed[j].test.start ==> listed[i].test.time >= listed[j].test.time
    {
      assert Started(plan[p[i]]) == listed[i].test.start && Started(plan[p[j]]) == listed[j].test.start;
      assert plan[p[i]].test == Sort(tests, Slowest)[p[i]] && plan[p[j]].test == Sort(tests, Slowest)[p[j]];
    }
  }

  ghost function TestsOf(ms: seq<Manifest>): (ts: seq<SubTest>)
    ensures |ts| == |ms|
  {
    seq(|ms|, i requires 0 <= i < |ms| => ms[i].test)
  }

  lemma SameTestsOf(ms: seq<Manifest>, tests: seq<SubTest>)
    requires |ms| == |tests| && forall i :: 0 <= i < |ms| ==> ms[i].test == tests[i]
    ensures TestsOf(ms) == tests
  {
  }

  lemma {:induction false} InsertTestsOf(ms: seq<Manifest>, x: Manifest)
    ensures multiset(TestsOf(Insert(ms, x, Started))) == multiset(TestsOf(ms)) + multiset{x.test}
  {
    if ms != [] && Started(ms[|ms| - 1]) > Started(x) {
      var front, last := ms[..|ms| - 1], ms[|ms| - 1];
      InsertTestsOf(front, x);
      SplitLast(ms);
      TestsOfAppend(front, last);
      TestsOfAppend(Insert(front, x, Started), last);
    } else {
      TestsOfAppend(ms, x);
    }
  }

  lemma TestsOfAppend(ms: seq<Manifest>, x: Manifest)
    ensures TestsOf(ms + [x]) == TestsOf(ms) + [x.test]
  {
  }

  lemma {:induction false} SortTestsOf(ms: seq<Manifest>)
    ensures multiset(TestsOf(Sort(ms, Started))) == multiset(TestsOf(ms))
  {
    if ms != [] {
      var front, last := ms[..|ms| - 1], ms[|ms| - 1];
      SortTestsOf(front);
      InsertTestsOf(Sort(front, Started), last);
      SplitLast(ms);
      TestsOfAppend(front, last);
    }
  }

  lemma LoadsStep(before: seq<Manifest>, x: Manifest, m: nat)
    requires x.group < m
    ensures Loads(before + [x], m) == Loads(before, m)[x.group := Loads(before, m)[x.group] + x.test.time]
  {
    assert (before + [x])[..|before|] == before;
  }

  lemma SortedLoads(plan: seq<Manifest>, m: nat)
    ensures Loads(Sort(plan, Started), m) == Loads(plan, m)
  {
    forall g: nat ensures Load(Sort(plan, Started), Runtime, g) == Load(plan, Runtime, g) {
      SortLoad(plan, Started, Runtime, g);
    }
  }

  /** The first i tests are assigned, and the runtimes are the groups' loads. */
  ghost predicate Planned(tests: seq<SubTest>, i: nat, m: nat, manifests: seq<Manifest>, runtimes: seq<int>) {
    m > 0 && i <= |tests| && manifests == Plan(tests[..i], m) && runtimes == Loads(manifests, m)
  }

  lemma PlanNext(tests: seq<SubTest>, i: nat, m: nat, manifests: seq<Manifest>, runtimes: seq<int>)
    requires i < |tests| && Planned(tests, i, m, manifests, runtimes)
    ensures var g := LowestGroup(runtimes);
      && g < |runtimes|
      && Planned(tests, i + 1, m, manifests + [Manifest(g, tests[i])], runtimes[g := runtimes[g] + tests[i].time])
  {
    assert tests[..i + 1][..i] == tests[..i];
    LoadsStep(manifests, Manifest(LowestGroup(runtimes), tests[i]), m);
  }

  /** The loop that gives each sub test, in the order found, a group. */
  method AssignGroups(subTests: array<SubTest>, statsGroups: nat)
    returns (runtimes: array<int>, manifests: seq<Manifest>)
    requires statsGroups > 0
    ensures fresh(runtimes) && runtimes[..] == Loads(manifests, statsGroups)
    ensures manifests == Plan(subTests[..], statsGroups)
  {
    ghost var tests := subTests[..];
    runtimes := new int[statsGroups](_ => 0);
    manifests := [];
    assert runtimes[..] == Loads([], statsGroups);
    for i := 0 to subTests.Length
      invariant fresh(runtimes) && Planned(tests, i, statsGroups, manifests, runtimes[..])
    {
      PlanNext(tests, i, statsGroups, manifests, runtimes[..]);
      var currGroup := GetLowestRuntimeGroup(runtimes);
      ghost var before := runtimes[..];
      manifests := manifests + [Manifest(currGroup, subTests[i])];
      runtimes[currGroup] := runtimes[currGroup] + subTests[i].time;
      assert runtimes[..] == before[currGroup := before[currGroup] + tests[i].time];
    }
    assert tests[..subTests.Length] == tests;
  }

  /** parseJSONStatsResult up to marshalling: the sub tests are sorted in place. */
  method ParseJsonStatsResult(subTests: array<SubTest>, statsGroups: nat)
    returns (runtimes: array<int>, manifests: seq<Manifest>)
    requires statsGroups > 0
    modifies subTests
    ensures subTests[..] == Sort(old(subTests[..]), Slowest) && Descending(subTests[..])
    ensures fresh(runtimes) && runtimes[..] == Loads(manifests, statsGroups)
    ensures manifests == Sort(SortedPlan(old(subTests[..]), statsGroups), Started)
    ensures ListedByStart(manifests)
  {
    SortDescending(subTests[..]);
    ListingByStart(subTests[..], statsGroups);
    var sorted := Sort(subTests[..], Slowest);
    forall i | 0 <= i < subTests.Length {
      subTests[i] := sorted[i];
    }
    assert subTests[..] == sorted;
    runtimes, manifests := AssignGroups(subTests, statsGroups);
    SortedLoads(manifests, statsGroups);
    manifests := Sort(manifests, Started);
  }

  // ---------- the bound cannot be improved, nor the sentinel dropped ----------

  function Job(ref: nat, time: nat): SubTest {
    SubTest(ref, "", 0, time)
  }

  /** The two loads after one more test. */
  lemma PlanStep(tests: seq<SubTest>, t: SubTest, a: int, b: int)
    requires Loads(Plan(tests, 2), 2) == [a, b]
    ensures Loads(Plan(tests + [t], 2), 2) ==
      if b < SENTINEL && b < a then [a, b + t.time] else [a + t.time, b]
  {
    var before := Plan(tests, 2);
    assert (tests + [t])[..|tests|] == tests;
    var g := LowestGroup([a, b]);
    assert LowestUpTo([a, b], 1) == if a < SENTINEL then (0, a) else (0, SENTINEL);
    LoadsStep(before, Manifest(g, t), 2);
  }

  lemma LoadsOf(ms: seq<Manifest>, a: int, b: int)
    requires Loads(ms, 2) == [a, b]
    ensures Load(ms, Runtime, 0) == a && Load(ms, Runtime, 1) == b
  {
    assert Loads(ms, 2)[0] == a && Loads(ms, 2)[1] == b;
  }

  lemma AssignedStep(tests: seq<SubTest>, t: SubTest, assign: SubTest -> nat, a: int, b: int)
    requires Loads(Assigned(tests, assign), 2) == [a, b] && assign(t) < 2
    ensures Loads(Assigned(tests + [t], assign), 2) == if assign(t) == 0 then [a + t.time, b] else [a, b + t.time]
  {
    AssignedAppend(tests, t, assign);
    LoadsStep(Assigned(tests, assign), Manifest(assign(t), t), 2);
  }

  /** The first two jobs go to the first group, the others to the second. */
  function Halves(t: SubTest): nat {
    if t.ref < 2 then 0 else 1
  }

  lemma PlanTwo(t: SubTest, u: SubTest)
    requires t.time > 0
    ensures Loads(Plan([t, u], 2), 2) == [t.time, u.time]
  {
    assert [] + [t] == [t] && [t] + [u] == [t, u];
    assert Loads(Plan([], 2), 2) == [0, 0];
    PlanStep([], t, 0, 0);
    PlanStep([t], u, t.time, 0);
  }

  lemma HalvesFour(a: SubTest, b: SubTest, c: SubTest, d: SubTest)
    requires a.ref == 0 && b.ref == 1 && c.ref == 2 && d.ref == 3
    ensures Loads(Assigned([a, b, c, d], Halves), 2) == [a.time + b.time, c.time + d.time]
  {
    assert [] + [a] == [a] && [a] + [b] == [a, b] && [a, b] + [c] == [a, b, c] && [a, b, c] + [d] == [a, b, c, d];
    assert Loads(Assigned([], Halves), 2) == [0, 0];
    AssignedStep([], a, Halves, 0, 0);
    AssignedStep([a], b, Halves, a.time, 0);
    AssignedStep([a, b], c, Halves, a.time + b.time, 0);
    AssignedStep([a, b, c], d, Halves, a.time + b.time, c.time);
  }

  lemma TightPrefix(a: SubTest, b: SubTest, c: SubTest, d: SubTest)
    requires a.time == b.time == 3 && c.time == d.time == 2
    ensures Loads(Plan([a, b, c, d], 2), 2) == [5, 5]
  {
    PlanTwo(a, b);
    PlanStep([a, b], c, 3, 3);
    assert [a, b] + [c] == [a, b, c];
    PlanStep([a, b, c], d, 5, 3);
    assert [a, b, c] + [d] == [a, b, c, d];
  }

  lemma TightPlanLoads(a: SubTest, b: SubTest, c: SubTest, d: SubTest, e: SubTest)
    requires a.time == b.time == 3 && c.time == d.time == e.time == 2
    ensures Loads(SortedPlan([a, b, c, d, e], 2), 2) == [7, 5]
  {
    SortOfSorted([a, b, c, d, e], Slowest);
    TightPrefix(a, b, c, d);
    PlanStep([a, b, c, d], e, 5, 5);
    assert [a, b, c, d] + [e] == [a, b, c, d, e];
  }

  lemma TightAssignedLoads(a: SubTest, b: SubTest, c: SubTest, d: SubTest, e: SubTest)
    requires a == Job(0, 3) && b == Job(1, 3) && c == Job(2, 2) && d == Job(3, 2) && e == Job(4, 2)
    ensures Loads(Assigned([a, b, c, d, e], Halves), 2) == [6, 6]
  {
    HalvesFour(a, b, c, d);
    AssignedStep([a, b, c, d], e, Halves, 6, 4);
    assert [a, b, c, d] + [e] == [a, b, c, d, e];
  }

  /** Two groups, times 3, 3, 2, 2, 2: the report reaches 7 where 6 is possible, and the bound is met exactly. */
  lemma GrahamBoundTight()
    ensures exists tests: seq<SubTest> ::
      && TotalTime(tests) < 2 * SENTINEL
      && AtMost(Assigned(tests, Halves), 2, 6)
      && 3 * 2 * Load(SortedPlan(tests, 2), Runtime, 0) == (4 * 2 - 1) * 6
  {
    var tests := [Job(0, 3), Job(1, 3), Job(2, 2), Job(3, 2), Job(4, 2)];
    TightPlanLoads(Job(0, 3), Job(1, 3), Job(2, 2), Job(3, 2), Job(4, 2));
    TightAssignedLoads(Job(0, 3), Job(1, 3), Job(2, 2), Job(3, 2), Job(4, 2));
    LoadsOf(SortedPlan(tests, 2), 7, 5);
    LoadsOf(Assigned(tests, Halves), 6, 6);
    PlanConserves(tests, 2);
    assert GroupSum(SortedPlan(tests, 2), Runtime, 2) == GroupSum(SortedPlan(tests, 2), Runtime, 1) + 5;
    assert AtMost(Assigned(tests, Halves), 2, 6);
  }

  /** Four tests of 9999 hours in two groups: the scan no longer finds the lowest group and the bound fails. */
  lemma SentinelNeeded()
    ensures exists tests: seq<SubTest> ::
      && TotalTime(tests) == 4 * SENTINEL
      && AtMost(Assigned(tests, Halves), 2, 2 * SENTINEL)
      && 3 * 2 * Load(SortedPlan(tests, 2), Runtime, 0) > (4 * 2 - 1) * (2 * SENTINEL)
  {
    var tests := [Job(0, SENTINEL), Job(1, SENTINEL), Job(2, SENTINEL), Job(3, SENTINEL)];
    SentinelLoads(tests);
    LoadsOf(SortedPlan(tests, 2), 3 * SENTINEL, SENTINEL);
    LoadsOf(Assigned(tests, Halves), 2 * SENTINEL, 2 * SENTINEL);
    PlanConserves(tests, 2);
    assert GroupSum(SortedPlan(tests, 2), Runtime, 2) == GroupSum(SortedPlan(tests, 2), Runtime, 1) + SENTINEL;
    assert AtMost(Assigned(tests, Halves), 2, 2 * SENTINEL);
  }

  lemma SentinelLoads(tests: seq<SubTest>)
    requires tests == [Job(0, SENTINEL), Job(1, SENTINEL), Job(2, SENTINEL), Job(3, SENTINEL)]
    ensures Loads(SortedPlan(tests, 2), 2) == [3 * SENTINEL, SENTINEL]
    ensures Loads(Assigned(tests, Halves), 2) == [2 * SENTINEL, 2 * SENTINEL]
  {
    SortOfSorted(tests, Slowest);
    PlanTwo(tests[0], tests[1]);
    assert tests[..2] == [tests[0], tests[1]] && tests[..3] == tests[..2] + [tests[2]];
    assert tests == tests[..3] + [tests[3]];
    PlanStep(tests[..2], tests[2], SENTINEL, SENTINEL);
    PlanStep(tests[..3], tests[3], 2 * SENTINEL, SENTINEL);
    HalvesFour(tests[0], tests[1], tests[2], tests[3]);
  }
}

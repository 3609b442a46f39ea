/**
 The report tree. Aggregation adds the sub results into each element in place, so doing
 it again counts them again; the failure verdict has to survive that.
 */
module Report {
  /** The counters of an element and its sub tests, as a value. */
  datatype Tree = Node(failures: nat, tests: nat, kids: seq<Tree>)

  const LEAF := Node(0, 0, [])

  // ---------- aggregation ----------

  /** The two counts of an element, which are aggregated alike. */
  datatype Counter = Failures | Tests

  function Count(what: Counter, t: Tree): nat {
    match what
    case Failures => t.failures
    case Tests => t.tests
  }

  ghost function Sum(what: Counter, kids: seq<Tree>): nat {
    if kids == [] then 0 else Sum(what, kids[..|kids| - 1]) + Count(what, kids[|kids| - 1])
  }

  /** What getTestResult makes of a tree: the sub tests first, then their sums on top of the own counts. */
  ghost function Aggregate(t: Tree): Tree {
    var kids := AggregateAll(t, |t.kids|);
    Node(t.failures + Sum(Failures, kids), t.tests + Sum(Tests, kids), kids)
  }

  /** The first n sub tests aggregated. */
  ghost function AggregateAll(t: Tree, n: nat): (kids: seq<Tree>)
    requires n <= |t.kids|
    ensures |kids| == n
    decreases t, 0, n
  {
    if n == 0 then [] else AggregateAll(t, n - 1) + [Aggregate(t.kids[n - 1])]
  }

  lemma {:induction false} AggregateAllAt(t: Tree, n: nat, i: nat)
    requires i < n <= |t.kids|
    ensures AggregateAll(t, n)[i] == Aggregate(t.kids[i])
  {
    if i < n - 1 {
      AggregateAllAt(t, n - 1, i);
    }
  }

  /** An aggregation under way: `kids` holds the first i sub tests aggregated and the others as they were. */
  ghost predicate Partly(t: Tree, kids: seq<Tree>, i: nat, failures: nat, tests: nat) {
    && i <= |kids| == |t.kids|
    && (forall j :: 0 <= j < i ==> kids[j] == Aggregate(t.kids[j]))
    && (forall j :: i <= j < |kids| ==> kids[j] == t.kids[j])
    && failures == t.failures + Sum(Failures, kids[..i])
    && tests == t.tests + Sum(Tests, kids[..i])
  }

  lemma PartlyNext(t: Tree, kids: seq<Tree>, i: nat, failures: nat, tests: nat)
    requires i < |kids| && Partly(t, kids, i, failures, tests)
    ensures var next := Aggregate(t.kids[i]);
      Partly(t, kids[i := next], i + 1, failures + next.failures, tests + next.tests)
  {
    var next := Aggregate(t.kids[i]);
    assert kids[i := next][..i + 1][..i] == kids[..i];
  }

  lemma PartlyDone(t: Tree, kids: seq<Tree>, failures: nat, tests: nat)
    requires Partly(t, kids, |kids|, failures, tests)
    ensures Node(failures, tests, kids) == Aggregate(t)
  {
    forall i | 0 <= i < |kids| ensures kids[i] == AggregateAll(t, |t.kids|)[i] {
      AggregateAllAt(t, |t.kids|, i);
    }
    assert kids[..|kids|] == kids == AggregateAll(t, |t.kids|);
  }

  ghost function Repeat(t: Tree, n: nat): Tree {
    if n == 0 then t else Aggregate(Repeat(t, n - 1))
  }

  // ---------- the first aggregation is exact ----------

  /** Local counts summed over a subtree, taking the first n sub tests. */
  ghost function Below(what: Counter, t: Tree, n: nat): nat
    requires n <= |t.kids|
    decreases t, n
  {
    if n == 0 then Count(what, t) else Below(what, t, n - 1) + Below(what, t.kids[n - 1], |t.kids[n - 1].kids|)
  }

  /** The node at a path of sub test indices. */
  ghost predicate HasPath(t: Tree, path: seq<nat>) {
    path == [] || (path[0] < |t.kids| && HasPath(t.kids[path[0]], path[1..]))
  }

  ghost function At(t: Tree, path: seq<nat>): Tree
    requires HasPath(t, path)
    decreases |path|
  {
    if path == [] then t else At(t.kids[path[0]], path[1..])
  }

  lemma {:induction false} AggregateSums(t: Tree, what: Counter)
    ensures Count(what, Aggregate(t)) == Below(what, t, |t.kids|)
    decreases t, |t.kids| + 1
  {
    AggregateSumsUpTo(t, what, |t.kids|);
  }

  lemma {:induction false} AggregateSumsUpTo(t: Tree, what: Counter, n: nat)
    requires n <= |t.kids|
    ensures Count(what, t) + Sum(what, AggregateAll(t, n)) == Below(what, t, n)
    decreases t, n
  {
    if n > 0 {
      AggregateSumsUpTo(t, what, n - 1);
      AggregateSums(t.kids[n - 1], what);
      assert AggregateAll(t, n)[..n - 1] == AggregateAll(t, n - 1);
    }
  }

  /** Aggregation acts on every node as it does on the root of its subtree. */
  lemma {:induction false} AggregateAt(t: Tree, path: seq<nat>)
    requires HasPath(t, path)
    ensures HasPath(Aggregate(t), path) && At(Aggregate(t), path) == Aggregate(At(t, path))
    decreases |path|
  {
    if path != [] {
      AggregateAllAt(t, |t.kids|, path[0]);
      AggregateAt(t.kids[path[0]], path[1..]);
    }
  }

  /** After the first aggregation every node carries the sums of the local counts over its subtree. */
  lemma FirstAggregationExact(t: Tree, path: seq<nat>, what: Counter)
    requires HasPath(t, path)
    ensures HasPath(Aggregate(t), path)
    ensures Count(what, At(Aggregate(t), path)) == Below(what, At(t, path), |At(t, path).kids|)
  {
    AggregateAt(t, path);
    AggregateSums(At(t, path), what);
  }

  // ---------- later aggregations count again ----------

  /** How often n aggregations count a failure or test recorded d levels down. */
  ghost function Times(n: nat, d: nat): nat {
    if d == 0 then 1
    else if n == 0 then 0
    else Times(n - 1, d) + Times(n, d - 1)
  }

  lemma {:induction false} TimesRatio(n: nat, d: nat)
    requires d > 0
    ensures d * Times(n, d) == (n + d - 1) * Times(n, d - 1)
    decreases n, d
  {
    if n > 0 && d > 1 {
      TimesRatio(n - 1, d);
      TimesRatio(n, d - 1);
      RatioStep(d, n + d - 2, Times(n, d - 1), Times(n - 1, d), Times(n - 1, d - 1), Times(n, d - 2));
    } else if n > 0 {
      TimesOne(n);
    }
  }

  lemma RatioStep(d: int, k: int, a: int, b: int, c: int, e: int)
    requires a == c + e && d * b == k * c && (d - 1) * a == k * e
    ensures d * (b + a) == (k + 1) * a
  {
    Distribute(k, c, e);
    Distribute(d, b, a);
    Distribute(a, d, -1);
    Distribute(a, k, 1);
  }

  lemma Distribute(x: int, y: int, z: int)
    ensures x * (y + z) == x * y + x * z
  {
  }

  lemma {:induction false} TimesOne(n: nat)
    ensures Times(n, 1) == n
  {
    if n > 0 {
      TimesOne(n - 1);
    }
  }

  function Factorial(d: nat): nat {
    if d == 0 then 1 else d * Factorial(d - 1)
  }

  /** The product of n, n + 1, and so on, d factors in all. */
  function Rising(n: nat, d: nat): nat {
    if d == 0 then 1 else (n + d - 1) * Rising(n, d - 1)
  }

  /** The binomial of n + d - 1 over d. */
  lemma {:induction false} TimesIsBinomial(n: nat, d: nat)
    ensures Factorial(d) * Times(n, d) == Rising(n, d)
  {
    if d > 0 {
      TimesIsBinomial(n, d - 1);
      TimesRatio(n, d);
      Regroup(d, Factorial(d - 1), Times(n, d));
      Regroup(n + d - 1, Factorial(d - 1), Times(n, d - 1));
    }
  }

  lemma Regroup(x: int, y: int, z: int)
    ensures (x * y) * z == y * (x * z) && x * (y * z) == y * (x * z)
  {
  }

  /** The counts of a subtree d levels down, each with its multiplicity, taking the first k sub tests. */
  ghost function Counted(what: Counter, t: Tree, n: nat, d: nat, k: nat): nat
    requires k <= |t.kids|
    decreases t, k
  {
    if k == 0 then Times(n, d) * Count(what, t)
    else Counted(what, t, n, d, k - 1) + Counted(what, t.kids[k - 1], n, d + 1, |t.kids[k - 1].kids|)
  }

  lemma {:induction false} CountedStep(what: Counter, t: Tree, n: nat, d: nat, k: nat)
    requires n > 0 && d > 0 && k <= |t.kids|
    ensures Counted(what, t, n, d, k) == Counted(what, t, n - 1, d, k) + Counted(what, t, n, d - 1, k)
    decreases t, k
  {
    if k > 0 {
      CountedStep(what, t, n, d, k - 1);
      CountedStep(what, t.kids[k - 1], n, d + 1, |t.kids[k - 1].kids|);
    }
  }

  lemma {:induction false} RepeatAt(t: Tree, n: nat)
    ensures |Repeat(t, n).kids| == |t.kids|
    ensures forall i :: 0 <= i < |t.kids| ==> Repeat(t, n).kids[i] == Repeat(t.kids[i], n)
  {
    if n > 0 {
      RepeatAt(t, n - 1);
      var before := Repeat(t, n - 1);
      forall i | 0 <= i < |t.kids| ensures Repeat(t, n).kids[i] == Repeat(t.kids[i], n) {
        AggregateAllAt(before, |before.kids|, i);
      }
    }
  }

  /** The root's count after n aggregations: every count below, as often as its depth makes it. */
  lemma {:induction false} RepeatedCount(what: Counter, t: Tree, n: nat)
    ensures Count(what, Repeat(t, n)) == Counted(what, t, n, 0, |t.kids|)
    decreases t, n, |t.kids| + 1
  {
    RepeatedCountUpTo(what, t, n, |t.kids|);
    RepeatAt(t, n);
    if n > 0 {
      RepeatedCount(what, t, n - 1);
      assert Repeat(t, n).kids == AggregateAll(Repeat(t, n - 1), |t.kids|);
      assert Repeat(t, n).kids[..|t.kids|] == Repeat(t, n).kids;
    }
  }

  lemma {:induction false} RepeatedCountUpTo(what: Counter, t: Tree, n: nat, k: nat)
    requires k <= |t.kids|
    ensures |Repeat(t, n).kids| == |t.kids|
    ensures n > 0 ==> Counted(what, t, n, 0, k) == Counted(what, t, n - 1, 0, k) + Sum(what, Repeat(t, n).kids[..k])
    ensures n == 0 ==> Counted(what, t, 0, 0, k) == Count(what, t)
    decreases t, n, k
  {
    RepeatAt(t, n);
    if k > 0 {
      RepeatedCountUpTo(what, t, n, k - 1);
      var kid := t.kids[k - 1];
      if n > 0 {
        CountedStep(what, kid, n, 1, |kid.kids|);
        RepeatedCount(what, kid, n);
        SumUpTo(what, Repeat(t, n).kids, k);
      } else {
        CountedZero(what, kid, 1, |kid.kids|);
      }
    }
  }

  lemma SumUpTo(what: Counter, kids: seq<Tree>, k: nat)
    requires 0 < k <= |kids|
    ensures Sum(what, kids[..k]) == Sum(what, kids[..k - 1]) + Count(what, kids[k - 1])
  {
    assert kids[..k][..k - 1] == kids[..k - 1];
  }

  lemma {:induction false} CountedZero(what: Counter, t: Tree, d: nat, k: nat)
    requires d > 0 && k <= |t.kids|
    ensures Counted(what, t, 0, d, k) == 0
    decreases t, k
  {
    if k > 0 {
      CountedZero(what, t, d, k - 1);
      CountedZero(what, t.kids[k - 1], d + 1, |t.kids[k - 1].kids|);
    }
  }

  // ---------- the verdict ----------

  /** Some element of the tree has counted something. */
  ghost predicate Any(what: Counter, t: Tree) {
    Count(what, t) > 0 || exists i :: 0 <= i < |t.kids| && Any(what, t.kids[i])
  }

  lemma {:induction false} SumPositive(kids: seq<Tree>)
    ensures Sum(Failures, kids) > 0 <==> exists i :: 0 <= i < |kids| && kids[i].failures > 0
  {
    if kids != [] {
      SumPositive(kids[..|kids| - 1]);
    }
  }

  /** One aggregation counts a failure below the root once, more count it at least twice. */
  lemma {:induction false} TimesBounds(n: nat, d: nat)
    requires n > 0 && d > 0
    ensures if n == 1 then Times(n, d) == 1 else Times(n, d) >= 2
  {
    assert Times(0, d) == 0;
    if d > 1 {
      TimesBounds(n, d - 1);
    } else {
      TimesOne(n);
    }
  }

  lemma {:induction false} CountedBounds(what: Counter, t: Tree, n: nat, d: nat, k: nat)
    requires n > 0 && d > 0 && k <= |t.kids|
    ensures n == 1 ==> Counted(what, t, n, d, k) == Below(what, t, k)
    ensures n > 1 ==> Counted(what, t, n, d, k) >= 2 * Below(what, t, k)
    ensures Below(what, t, k) == 0 ==> Counted(what, t, n, d, k) == 0
    decreases t, k
  {
    if k > 0 {
      CountedBounds(what, t, n, d, k - 1);
      CountedBounds(what, t.kids[k - 1], n, d + 1, |t.kids[k - 1].kids|);
    } else {
      TimesBounds(n, d);
      if n > 1 {
        assert Times(n, d) * Count(what, t) >= 2 * Count(what, t);
      }
    }
  }

  lemma {:induction false} BelowIsAny(what: Counter, t: Tree, k: nat)
    requires k <= |t.kids|
    ensures Below(what, t, k) > 0 <==> Count(what, t) > 0 || exists i :: 0 <= i < k && Any(what, t.kids[i])
    decreases t, k
  {
    if k > 0 {
      BelowIsAny(what, t, k - 1);
      BelowIsAny(what, t.kids[k - 1], |t.kids[k - 1].kids|);
    }
  }

  /** The counts of the first k sub tests after n aggregations, against their local counts. */
  lemma {:induction false} RootCount(what: Counter, t: Tree, n: nat, k: nat)
    requires n > 0 && k <= |t.kids|
    ensures Counted(what, t, n, 0, k) >= Below(what, t, k)
    ensures Counted(what, t, n, 0, k) == Below(what, t, k) <==>
      n == 1 || forall i :: 0 <= i < k ==> !Any(what, t.kids[i])
  {
    if k > 0 {
      var kid := t.kids[k - 1];
      RootCount(what, t, n, k - 1);
      CountedBounds(what, kid, n, 1, |kid.kids|);
      BelowIsAny(what, kid, |kid.kids|);
    }
  }

  /**
   The root's failures, and likewise its tests, are exact after the first aggregation, and
   after later ones only if nothing was counted below the root.
   */
  lemma RepeatedExactIff(what: Counter, t: Tree, n: nat)
    requires n > 0
    ensures Count(what, Repeat(t, n)) == Below(what, t, |t.kids|) <==>
      n == 1 || forall i :: 0 <= i < |t.kids| ==> !Any(what, t.kids[i])
  {
    RepeatedCount(what, t, n);
    RootCount(what, t, n, |t.kids|);
  }

  /** Aggregation brings a failure anywhere to the root, and adds none where there was none. */
  lemma {:induction false} AggregateVerdict(t: Tree)
    ensures Aggregate(t).failures > 0 <==> Any(Failures, t)
    ensures Any(Failures, Aggregate(t)) <==> Any(Failures, t)
    decreases t
  {
    var kids := AggregateAll(t, |t.kids|);
    SumPositive(kids);
    forall i | 0 <= i < |t.kids|
      ensures kids[i].failures > 0 <==> Any(Failures, t.kids[i])
      ensures Any(Failures, kids[i]) <==> Any(Failures, t.kids[i])
    {
      AggregateAllAt(t, |t.kids|, i);
      AggregateVerdict(t.kids[i]);
    }
  }

  lemma {:induction false} VerdictSurvives(t: Tree, n: nat)
    requires n > 0
    ensures Repeat(t, n).failures > 0 <==> Any(Failures, t)
  {
    RepeatKeepsFailures(t, n - 1);
    AggregateVerdict(Repeat(t, n - 1));
  }

  lemma {:induction false} RepeatKeepsFailures(t: Tree, n: nat)
    ensures Any(Failures, Repeat(t, n)) <==> Any(Failures, t)
  {
    if n > 0 {
      RepeatKeepsFailures(t, n - 1);
      AggregateVerdict(Repeat(t, n - 1));
    }
  }

  // ---------- whole runs ----------

  /** What a run does to the tree; an element is addressed by its path. */
  datatype Event = NewChild(path: seq<nat>) | Leave(path: seq<nat>, result: bool) | GetResult

  ghost function Left(t: Tree, result: bool): Tree {
    Node(if result then t.failures else t.failures + 1, if t.kids == [] then t.tests + 1 else t.tests, t.kids)
  }

  ghost function Act(t: Tree, e: Event): Tree {
    match e
    case NewChild(_) => t.(kids := t.kids + [LEAF])
    case Leave(_, result) => Left(t, result)
    case GetResult => Aggregate(t)
  }

  ghost function PathOf(e: Event): seq<nat> {
    if e.GetResult? then [] else e.path
  }

  ghost function ActAt(t: Tree, path: seq<nat>, e: Event): Tree
    requires HasPath(t, path)
    decreases |path|
  {
    if path == [] then Act(t, e)
    else t.(kids := t.kids[path[0] := ActAt(t.kids[path[0]], path[1..], e)])
  }

  /** The tree after a run of events on elements that exist; None if an element does not. */
  ghost predicate Possible(events: seq<Event>)
    decreases |events|, 0
  {
    events == [] || (Possible(events[..|events| - 1])
                     && HasPath(After(events[..|events| - 1]), PathOf(events[|events| - 1])))
  }

  ghost function After(events: seq<Event>): Tree
    requires Possible(events)
    decreases |events|, 1
  {
    if events == [] then LEAF
    else ActAt(After(events[..|events| - 1]), PathOf(events[|events| - 1]), events[|events| - 1])
  }

  ghost predicate RecordsFailure(e: Event) {
    e.Leave? && !e.result
  }

  lemma {:induction false} ActAtVerdict(t: Tree, path: seq<nat>, e: Event)
    requires HasPath(t, path)
    ensures Any(Failures, ActAt(t, path, e)) <==> Any(Failures, t) || RecordsFailure(e)
    decreases |path|
  {
    var t' := ActAt(t, path, e);
    if path == [] {
      if e.GetResult? {
        AggregateVerdict(t);
      } else if e.NewChild? {
        assert !Any(Failures, LEAF);
        assert forall i :: 0 <= i < |t.kids| ==> t'.kids[i] == t.kids[i];
      }
    } else {
      ActAtVerdict(t.kids[path[0]], path[1..], e);
      assert t'.kids[path[0]] == ActAt(t.kids[path[0]], path[1..], e);
      assert forall i :: 0 <= i < |t.kids| && i != path[0] ==> t'.kids[i] == t.kids[i];
    }
  }

  // ---------- what the counts count ----------

  /** Leaving an element counts a failure on a false result, and a test where there are no sub tests. */
  ghost predicate Adds(what: Counter, t: Tree, e: Event) {
    e.Leave? &&
    match what
    case Failures => !e.result
    case Tests => t.kids == []
  }

  /** How many events of a run have added to a count. */
  ghost function Added(what: Counter, events: seq<Event>): nat
    requires Possible(events)
  {
    if events == [] then 0
    else
      var front, e := events[..|events| - 1], events[|events| - 1];
      Added(what, front) + if Adds(what, At(After(front), PathOf(e)), e) then 1 else 0
  }

  lemma {:induction false} BelowPrefix(what: Counter, t: Tree, u: Tree, n: nat)
    requires Count(what, t) == Count(what, u) && n <= |t.kids| && n <= |u.kids|
    requires forall i :: 0 <= i < n ==> t.kids[i] == u.kids[i]
    ensures Below(what, t, n) == Below(what, u, n)
  {
    if n > 0 {
      BelowPrefix(what, t, u, n - 1);
    }
  }

  lemma {:induction false} BelowUpdate(what: Counter, t: Tree, i: nat, kid: Tree, n: nat)
    requires i < |t.kids| && n <= |t.kids|
    ensures Below(what, t.(kids := t.kids[i := kid]), n) ==
      Below(what, t, n) + if i < n then Below(what, kid, |kid.kids|) - Below(what, t.kids[i], |t.kids[i].kids|) else 0
  {
    if n > 0 {
      BelowUpdate(what, t, i, kid, n - 1);
    }
  }

  lemma {:induction false} ActAtBelow(what: Counter, t: Tree, path: seq<nat>, e: Event)
    requires HasPath(t, path) && !e.GetResult?
    ensures var t' := ActAt(t, path, e);
      Below(what, t', |t'.kids|) == Below(what, t, |t.kids|) + if Adds(what, At(t, path), e) then 1 else 0
    decreases |path|
  {
    if path == [] {
      var t' := Act(t, e);
      if e.NewChild? {
        BelowPrefix(what, t, t', |t.kids|);
        assert Below(what, LEAF, 0) == 0;
      } else {
        BelowOwn(what, t, t', |t.kids|);
      }
    } else {
      var i := path[0];
      ActAtBelow(what, t.kids[i], path[1..], e);
      BelowUpdate(what, t, i, ActAt(t.kids[i], path[1..], e), |t.kids|);
    }
  }

  lemma {:induction false} BelowOwn(what: Counter, t: Tree, u: Tree, n: nat)
    requires t.kids == u.kids && n <= |t.kids|
    ensures Below(what, u, n) - Count(what, u) == Below(what, t, n) - Count(what, t)
  {
    if n > 0 {
      BelowOwn(what, t, u, n - 1);
    }
  }

  /**
   Before results are taken, the root's failures after an aggregation are the elements left
   with a failure, and its tests those left without sub tests.
   */
  lemma {:induction false} CountsOfRun(what: Counter, events: seq<Event>)
    requires Possible(events) && forall i :: 0 <= i < |events| ==> !events[i].GetResult?
    ensures Count(what, Aggregate(After(events))) == Added(what, events)
  {
    BelowOfRun(what, events);
    AggregateSums(After(events), what);
  }

  lemma {:induction false} BelowOfRun(what: Counter, events: seq<Event>)
    requires Possible(events) && forall i :: 0 <= i < |events| ==> !events[i].GetResult?
    ensures Below(what, After(events), |After(events).kids|) == Added(what, events)
  {
    if events != [] {
      var front, e := events[..|events| - 1], events[|events| - 1];
      BelowOfRun(what, front);
      ActAtBelow(what, After(front), PathOf(e), e);
    }
  }

  /** However often results are taken in between, the report failed iff some element was left with a failure. */
  lemma {:induction false} DidFailIff(events: seq<Event>)
    requires Possible(events)
    ensures Aggregate(After(events)).failures > 0 <==> exists i :: 0 <= i < |events| && RecordsFailure(events[i])
  {
    AggregateVerdict(After(events));
    FailureRecorded(events);
  }

  lemma {:induction false} FailureRecorded(events: seq<Event>)
    requires Possible(events)
    ensures Any(Failures, After(events)) <==> exists i :: 0 <= i < |events| && RecordsFailure(events[i])
  {
    if events != [] {
      var front, e := events[..|events| - 1], events[|events| - 1];
      FailureRecorded(front);
      ActAtVerdict(After(front), PathOf(e), e);
      assert forall i :: 0 <= i < |front| ==> front[i] == events[i];
    }
  }

  // ---------- the elements themselves ----------

  class ReportElement {
    var failures: nat
    var testCount: nat
    var subTests: seq<ReportElement>
    ghost var Repr: set<ReportElement>

    /** The elements below form a tree. */
    ghost predicate Valid()
      reads this, Repr
      decreases Repr
    {
      && this in Repr
      && (forall i :: 0 <= i < |subTests| ==>
            && subTests[i] in Repr && subTests[i].Repr < Repr && this !in subTests[i].Repr && subTests[i].Valid())
      && (forall i, j :: 0 <= i < j < |subTests| ==> subTests[i].Repr !! subTests[j].Repr)
    }

    ghost function Kids(n: nat): (kids: seq<Tree>)
      requires Valid() && n <= |subTests|
      reads this, Repr
      ensures |kids| == n
      decreases Repr, 0, n
    {
      if n == 0 then [] else Kids(n - 1) + [subTests[n - 1].Value()]
    }

    ghost function Value(): Tree
      requires Valid()
      reads this, Repr
      decreases Repr, 1
    {
      Node(failures, testCount, Kids(|subTests|))
    }

    lemma KidsAt(n: nat, i: nat)
      requires Valid() && i < n <= |subTests|
      ensures Kids(n)[i] == subTests[i].Value()
    {
      if i < n - 1 {
        KidsAt(n - 1, i);
      }
    }

    lemma ValueKids()
      requires Valid()
      ensures forall i :: 0 <= i < |subTests| ==> Value().kids[i] == subTests[i].Value()
    {
      forall i | 0 <= i < |subTests| ensures Value().kids[i] == subTests[i].Value() {
        KidsAt(|subTests|, i);
      }
    }

    lemma ValueIs(kids: seq<Tree>)
      requires Valid() && |kids| == |subTests|
      requires forall i :: 0 <= i < |kids| ==> kids[i] == subTests[i].Value()
      ensures Value() == Node(failures, testCount, kids)
    {
      forall i | 0 <= i < |kids| ensures Kids(|subTests|)[i] == kids[i] {
        KidsAt(|subTests|, i);
      }
    }

    constructor ()
      ensures Valid() && fresh(Repr) && Value() == LEAF
    {
      failures, testCount, subTests := 0, 0, [];
      Repr := {this};
    }

    /** Appends a fresh element to the sub tests. */
    method NewChild() returns (child: ReportElement)
      requires Valid()
      modifies this
      ensures Valid() && fresh(Repr - old(Repr))
      ensures subTests == old(subTests) + [child] && child.Valid() && child.Value() == LEAF
      ensures Value() == Act(old(Value()), Event.NewChild([]))
    {
      ghost var t := Value();
      ValueKids();
      child := new ReportElement();
      subTests := subTests + [child];
      Repr := Repr + child.Repr;
      ValueIs(t.kids + [LEAF]);
    }

    method Leave(result: bool)
      requires Valid()
      modifies this
      ensures Valid() && Repr == old(Repr) && subTests == old(subTests)
      ensures Value() == Act(old(Value()), Event.Leave([], result))
    {
      ghost var t := Value();
      ValueKids();
      if |subTests| == 0 {
        testCount := testCount + 1;
      }
      if !result {
        failures := failures + 1;
      }
      ValueIs(t.kids);
    }

    /** One iteration of the aggregation loop; `kids` are the values of the sub tests. */
    method AggregateSubTest(i: nat, ghost kids: seq<Tree>)
      requires Valid() && i < |subTests| == |kids|
      requires forall j :: 0 <= j < |subTests| ==> subTests[j].Value() == kids[j]
      modifies this`failures, this`testCount, subTests[i].Repr
      ensures Valid() && Repr == old(Repr) && subTests == old(subTests)
      ensures forall j :: 0 <= j < |subTests| ==> subTests[j].Value() == kids[i := Aggregate(kids[i])][j]
      ensures failures == old(failures) + Aggregate(kids[i]).failures
      ensures testCount == old(testCount) + Aggregate(kids[i]).tests
      decreases Repr, 0
    {
      var v := subTests[i];
      assert forall j :: 0 <= j < |subTests| && j != i ==> subTests[j].Repr !! v.Repr;
      v.GetTestResult();
      AddCounts(v.failures, v.testCount);
    }

    /** What the sub test has counted is counted here too. */
    method AddCounts(moreFailures: nat, moreTests: nat)
      requires Valid()
      modifies this`failures, this`testCount
      ensures Valid() && forall j :: 0 <= j < |subTests| ==> subTests[j].Value() == old(subTests[j].Value())
      ensures failures == old(failures) + moreFailures && testCount == old(testCount) + moreTests
    {
      failures := failures + moreFailures;
      testCount := testCount + moreTests;
    }

    /** Adds the results of the sub tests, themselves aggregated first, to the own counts. */
    method GetTestResult()
      requires Valid()
      modifies Repr
      ensures Valid() && Repr == old(Repr) && subTests == old(subTests)
      ensures Value() == Aggregate(old(Value()))
      decreases Repr, 1
    {
      ghost var t := Value();
      ValueKids();
      ghost var kids := t.kids;
      for i := 0 to |subTests|
        invariant Valid() && Repr == old(Repr) && subTests == old(subTests) && |kids| == |subTests|
        invariant forall j :: 0 <= j < |subTests| ==> subTests[j].Value() == kids[j]
        invariant Partly(t, kids, i, failures, testCount)
      {
        PartlyNext(t, kids, i, failures, testCount);
        AggregateSubTest(i, kids);
        kids := kids[i := Aggregate(kids[i])];
      }
      PartlyDone(t, kids, failures, testCount);
      ValueIs(kids);
    }

    /** The report's verdict: aggregates once more and looks at the root. */
    method DidFail() returns (failed: bool)
      requires Valid()
      modifies Repr
      ensures Valid() && Repr == old(Repr) && Value() == Aggregate(old(Value()))
      ensures failed <==> Any(Failures, old(Value()))
    {
      AggregateVerdict(Value());
      GetTestResult();
      failed := failures > 0;
    }
  }
}

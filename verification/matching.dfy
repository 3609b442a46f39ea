/**
 Greedy matching of expected array elements (the rows of a matrix) against actual
 array elements (its columns), independent of what an element is.

 Entry [i][j] is the outcome of comparing expected element i with actual element j.
 `Greedy` is what the loops of arrayComparison compute, row by row; the lemmas relate
 it to the existence of an embedding (ordered mode) or of an injective assignment
 (unordered mode).
 */
module Matching {
  import opened Wrappers

  datatype Outcome = Malformed | Verdict(equal: bool)

  const YES := Verdict(true)

  type Matrix = seq<seq<Outcome>>

  ghost predicate Shaped(m: Matrix, width: nat) {
    forall i :: 0 <= i < |m| ==> |m[i]| == width
  }

  ghost predicate NoneMalformed(m: Matrix) {
    forall i, j :: 0 <= i < |m| && 0 <= j < |m[i]| ==> m[i][j] != Malformed
  }

  /** What the inner loop over the actual array finds for one expected element. */
  datatype Found = Broken | Missing | At(pos: nat)

  ghost function Scan(row: seq<Outcome>, from: nat, taken: set<nat>): (r: Found)
    ensures r.At? ==> from <= r.pos < |row| && r.pos !in taken && row[r.pos] == YES
    ensures r.At? ==> forall k :: from <= k < r.pos && k !in taken ==> row[k] == Verdict(false)
    ensures r.Missing? ==> forall k :: from <= k < |row| && k !in taken ==> row[k] == Verdict(false)
    ensures r.Broken? ==> exists k :: from <= k < |row| && k !in taken && row[k] == Malformed &&
                                      (forall j :: from <= j < k && j !in taken ==> row[j] == Verdict(false))
    decreases if from <= |row| then |row| - from else 0
  {
    if from >= |row| then Missing
    else if from in taken then Scan(row, from + 1, taken)
    else
      match row[from]
      case Malformed => Broken
      case Verdict(equal) => if equal then At(from) else Scan(row, from + 1, taken)
  }

  /** Elements that are taken or do not match make no difference to the scan. */
  lemma ScanPast(row: seq<Outcome>, from: nat, to: nat, taken: set<nat>)
    requires to <= |row| && forall k: nat :: from <= k < to && k !in taken ==> row[k] == Verdict(false)
    ensures from <= to ==> Scan(row, from, taken) == Scan(row, to, taken)
    decreases if from < to then to - from else 0
  {
    if from < to {
      ScanPast(row, from + 1, to, taken);
    }
  }

  /** The actual position chosen for each expected element handled so far. */
  type Hits = seq<Option<nat>>

  datatype Run = Stopped | Ran(hits: Hits)

  ghost function Taken(hits: Hits): set<nat> {
    set i | 0 <= i < |hits| && hits[i].Some? :: hits[i].value
  }

  /** The first position after the last hit. */
  ghost function After(hits: Hits): nat {
    if hits == [] then 0
    else if hits[|hits| - 1].Some? then hits[|hits| - 1].value + 1
    else After(hits[..|hits| - 1])
  }

  ghost function Step(row: seq<Outcome>, ordered: bool, hits: Hits): Run {
    match if ordered then Scan(row, After(hits), {}) else Scan(row, 0, Taken(hits))
    case Broken => Stopped
    case Missing => Ran(hits + [None])
    case At(pos) => Ran(hits + [Some(pos)])
  }

  ghost function Greedy(m: Matrix, ordered: bool, i: nat): (r: Run)
    requires i <= |m|
    ensures r.Ran? ==> |r.hits| == i
  {
    if i == 0 then Ran([])
    else
      match Greedy(m, ordered, i - 1)
      case Stopped => Stopped
      case Ran(hits) => Step(m[i - 1], ordered, hits)
  }

  ghost predicate AllHit(hits: Hits) {
    forall i :: 0 <= i < |hits| ==> hits[i].Some?
  }

  /** The no_extra bookkeeping: ordered mode marks the expected position, unordered mode the actual one. */
  ghost function Marked(hits: Hits, ordered: bool): set<nat> {
    if ordered then set k: nat | k < |hits| && hits[k].Some? else Taken(hits)
  }

  ghost function ArrayVerdict(m: Matrix, width: nat, ordered: bool, noExtra: bool): Outcome {
    if |m| > width then Verdict(false)
    else
      match Greedy(m, ordered, |m|)
      case Stopped => Malformed
      case Ran(hits) =>
        Verdict(AllHit(hits) && (noExtra ==> forall k: nat :: k < width ==> k in Marked(hits, ordered)))
  }

  // ---------- reference notions ----------

  /** f sends every expected element to a matching actual element. */
  ghost predicate Matches(f: seq<nat>, m: Matrix) {
    && |f| == |m|
    && forall i :: 0 <= i < |f| ==> f[i] < |m[i]| && m[i][f[i]] == YES
  }

  ghost predicate Increasing(f: seq<nat>) {
    forall i, j :: 0 <= i < j < |f| ==> f[i] < f[j]
  }

  ghost predicate Injective(f: seq<nat>) {
    forall i, j :: 0 <= i < j < |f| ==> f[i] != f[j]
  }

  ghost predicate Onto(f: seq<nat>, width: nat) {
    forall k: nat :: k < width ==> k in f
  }

  ghost predicate Nested(m: Matrix, i: nat, k: nat, j: nat, j': nat)
    requires i < |m| && k < |m| && j < |m[i]| && j' < |m[i]|
  {
    j < |m[k]| && j' < |m[k]| && m[i][j] == YES && m[k][j] == YES && m[i][j'] == YES ==> m[k][j'] == YES
  }

  /** Two expected elements that compete for an actual one: the earlier is at least as particular. */
  ghost predicate NestedOrDisjoint(m: Matrix) {
    forall i, k, j, j' :: 0 <= i < k < |m| && 0 <= j < |m[i]| && 0 <= j' < |m[i]| ==> Nested(m, i, k, j, j')
  }

  ghost function Values(hits: Hits): (f: seq<nat>)
    requires AllHit(hits)
    ensures |f| == |hits|
  {
    seq(|hits|, i requires 0 <= i < |hits| => hits[i].value)
  }

  // ---------- facts about every run ----------

  lemma {:induction false} GreedyNotStopped(m: Matrix, ordered: bool, i: nat)
    requires NoneMalformed(m) && i <= |m|
    ensures Greedy(m, ordered, i).Ran?
  {
    if i > 0 {
      GreedyNotStopped(m, ordered, i - 1);
    }
  }

  lemma GreedyPrefix(m: Matrix, ordered: bool, i: nat, n: nat)
    requires i <= n <= |m| && Greedy(m, ordered, n).Ran?
    ensures Greedy(m, ordered, i).Ran? && Greedy(m, ordered, i).hits == Greedy(m, ordered, n).hits[..i]
    decreases n
  {
    if i < n {
      GreedyPrefix(m, ordered, i, n - 1);
    }
  }

  ghost predicate Distinct(hits: Hits) {
    forall i, j :: 0 <= i < j < |hits| && hits[i].Some? && hits[j].Some? ==> hits[i].value != hits[j].value
  }

  ghost predicate Climbing(hits: Hits) {
    && (forall i, j :: 0 <= i < j < |hits| && hits[i].Some? && hits[j].Some? ==> hits[i].value < hits[j].value)
    && (forall i :: 0 <= i < |hits| && hits[i].Some? ==> hits[i].value < After(hits))
  }

  ghost predicate HitsMatch(m: Matrix, width: nat, hits: Hits) {
    && |hits| <= |m|
    && forall i :: 0 <= i < |hits| && hits[i].Some? ==>
         hits[i].value < width && hits[i].value < |m[i]| && m[i][hits[i].value] == YES
  }

  lemma {:induction false} GreedyMatches(m: Matrix, width: nat, ordered: bool, n: nat)
    requires Shaped(m, width) && n <= |m| && Greedy(m, ordered, n).Ran?
    ensures HitsMatch(m, width, Greedy(m, ordered, n).hits)
  {
    if n > 0 {
      GreedyMatches(m, width, ordered, n - 1);
    }
  }

  lemma ClimbOne(hits: Hits, next: Option<nat>)
    requires Climbing(hits) && (next.Some? ==> next.value >= After(hits))
    ensures Climbing(hits + [next])
  {
    var longer := hits + [next];
    assert longer[..|hits|] == hits;
    assert After(longer) == if next.Some? then next.value + 1 else After(hits);
  }

  lemma {:induction false} OrderedClimbs(m: Matrix, n: nat)
    requires n <= |m| && Greedy(m, true, n).Ran?
    ensures Climbing(Greedy(m, true, n).hits)
  {
    if n > 0 {
      OrderedClimbs(m, n - 1);
      var h := Greedy(m, true, n).hits;
      ClimbOne(Greedy(m, true, n - 1).hits, h[n - 1]);
    }
  }

  lemma {:induction false} UnorderedDistinct(m: Matrix, n: nat)
    requires n <= |m| && Greedy(m, false, n).Ran?
    ensures Distinct(Greedy(m, false, n).hits)
  {
    if n > 0 {
      UnorderedDistinct(m, n - 1);
      var g := Greedy(m, false, n - 1).hits;
      assert forall i :: 0 <= i < |g| && g[i].Some? ==> g[i].value in Taken(g);
    }
  }

  /** Every hit is a match, and no actual position is used twice. */
  lemma GreedyHits(m: Matrix, width: nat, ordered: bool, n: nat)
    requires Shaped(m, width) && n <= |m| && Greedy(m, ordered, n).Ran?
    ensures HitsMatch(m, width, Greedy(m, ordered, n).hits)
    ensures Distinct(Greedy(m, ordered, n).hits)
    ensures ordered ==> Climbing(Greedy(m, ordered, n).hits)
  {
    GreedyMatches(m, width, ordered, n);
    if ordered {
      OrderedClimbs(m, n);
    } else {
      UnorderedDistinct(m, n);
    }
  }

  /** There are at most as many taken positions as expected elements handled. */
  lemma {:induction false} TakenSize(hits: Hits)
    ensures |Taken(hits)| <= |hits|
    ensures Distinct(hits) && AllHit(hits) ==> |Taken(hits)| == |hits|
  {
    if hits != [] {
      var n := |hits| - 1;
      TakenSize(hits[..n]);
      assert forall i :: 0 <= i < n ==> hits[..n][i] == hits[i];
      if hits[n].Some? {
        assert Taken(hits) == Taken(hits[..n]) + {hits[n].value};
      } else {
        assert Taken(hits) == Taken(hits[..n]);
      }
    } else {
      assert Taken(hits) == {};
    }
  }

  ghost function Below(n: nat): (s: set<nat>)
    ensures |s| == n
    ensures forall k: nat :: k in s <==> k < n
  {
    if n == 0 then {} else Below(n - 1) + {n - 1}
  }

  lemma SubsetSize(a: set<nat>, b: set<nat>)
    requires a <= b
    ensures |a| <= |b|
    ensures |a| == |b| ==> a == b
  {
    assert b == a + (b - a);
  }

  /**
   The pigeonhole step: while fewer expected elements are handled than actual elements
   exist, some actual element is untaken, so the inner loop tries at least one.
   */
  lemma UntakenExists(hits: Hits, width: nat)
    requires |hits| < width
    ensures exists k: nat :: k < width && k !in Taken(hits)
  {
    if forall k: nat :: k < width ==> k in Taken(hits) {
      SubsetSize(Below(width), Taken(hits));
      TakenSize(hits);
    }
  }

  // ---------- each choice, without the loops ----------

  /** An actual position still offered after these hits. */
  ghost predicate Offered(hits: Hits, ordered: bool, k: nat) {
    forall i :: 0 <= i < |hits| && hits[i].Some? ==> if ordered then hits[i].value < k else hits[i].value != k
  }

  /** The first position offered that does not simply differ. */
  ghost predicate Decides(row: seq<Outcome>, hits: Hits, ordered: bool, k: nat) {
    && k < |row| && Offered(hits, ordered, k) && row[k] != Verdict(false)
    && forall j: nat :: j < k && Offered(hits, ordered, j) ==> row[j] == Verdict(false)
  }

  /** Nothing offered matches, or the first position that does not simply differ is chosen. */
  ghost predicate Chooses(row: seq<Outcome>, hits: Hits, ordered: bool, next: Option<nat>) {
    match next
    case Some(k) => Decides(row, hits, ordered, k) && row[k] == YES
    case None => forall k: nat :: k < |row| && Offered(hits, ordered, k) ==> row[k] == Verdict(false)
  }

  ghost predicate Breaks(row: seq<Outcome>, hits: Hits, ordered: bool) {
    exists k: nat :: Decides(row, hits, ordered, k) && row[k] == Malformed
  }

  lemma {:induction false} AfterIs(hits: Hits)
    ensures After(hits) == 0 || exists i :: 0 <= i < |hits| && hits[i].Some? && After(hits) == hits[i].value + 1
  {
    if hits != [] && hits[|hits| - 1].None? {
      var front := hits[..|hits| - 1];
      AfterIs(front);
      assert forall i :: 0 <= i < |front| ==> front[i] == hits[i];
    }
  }

  lemma OfferedIs(hits: Hits, ordered: bool, k: nat)
    requires ordered ==> Climbing(hits)
    ensures Offered(hits, ordered, k) <==> if ordered then After(hits) <= k else k !in Taken(hits)
  {
    AfterIs(hits);
  }

  /** The scan that a step makes. */
  ghost function Scanned(row: seq<Outcome>, ordered: bool, hits: Hits): Found {
    if ordered then Scan(row, After(hits), {}) else Scan(row, 0, Taken(hits))
  }

  lemma ScannedIs(row: seq<Outcome>, ordered: bool, hits: Hits)
    requires ordered ==> Climbing(hits)
    ensures match Scanned(row, ordered, hits)
      case Broken => Breaks(row, hits, ordered)
      case Missing => Chooses(row, hits, ordered, None)
      case At(k) => Chooses(row, hits, ordered, Some(k))
  {
    forall k: nat ensures Offered(hits, ordered, k) <==> if ordered then After(hits) <= k else k !in Taken(hits) {
      OfferedIs(hits, ordered, k);
    }
    if Scanned(row, ordered, hits).Broken? {
      var from, taken := if ordered then After(hits) else 0, if ordered then {} else Taken(hits);
      var k :| from <= k < |row| && k !in taken && row[k] == Malformed
               && forall j :: from <= j < k && j !in taken ==> row[j] == Verdict(false);
      assert Decides(row, hits, ordered, k);
    }
  }

  /** At most one of the three can hold, so each step is the choice made. */
  lemma StepIs(row: seq<Outcome>, ordered: bool, hits: Hits)
    requires ordered ==> Climbing(hits)
    ensures Step(row, ordered, hits).Stopped? <==> Breaks(row, hits, ordered)
    ensures forall next :: Step(row, ordered, hits) == Ran(hits + [next]) <==> Chooses(row, hits, ordered, next)
  {
    ScannedIs(row, ordered, hits);
    assert forall k: nat, j: nat :: Decides(row, hits, ordered, k) && Decides(row, hits, ordered, j) ==> k == j;
    forall next ensures Step(row, ordered, hits) == Ran(hits + [next]) <==> Chooses(row, hits, ordered, next) {
      assert (hits + [next])[|hits|] == next;
    }
  }

  // ---------- no_extra ----------

  lemma AllMarkedOrdered(hits: Hits, width: nat)
    requires AllHit(hits) && |hits| <= width
    ensures (forall k: nat :: k < width ==> k in Marked(hits, true)) <==> |hits| == width
  {
    if |hits| < width {
      assert |hits| !in Marked(hits, true);
    }
  }

  lemma AllMarkedUnordered(hits: Hits, width: nat)
    requires AllHit(hits) && Distinct(hits)
    requires forall i :: 0 <= i < |hits| ==> hits[i].value < width
    ensures (forall k: nat :: k < width ==> k in Marked(hits, false)) <==> |hits| == width
  {
    TakenSize(hits);
    assert Taken(hits) <= Below(width);
    SubsetSize(Taken(hits), Below(width));
    if |hits| != width {
      assert |Taken(hits)| < |Below(width)| && Taken(hits) != Below(width);
      var k :| k in Below(width) && k !in Taken(hits);
      assert k !in Marked(hits, false);
    }
  }

  /** In both modes, no_extra adds exactly the demand that the two arrays have the same length. */
  lemma NoExtraMeansSameLength(m: Matrix, width: nat, ordered: bool)
    requires Shaped(m, width)
    ensures ArrayVerdict(m, width, ordered, true) == YES <==>
            ArrayVerdict(m, width, ordered, false) == YES && |m| == width
  {
    if ArrayVerdict(m, width, ordered, false) == YES {
      var h := Greedy(m, ordered, |m|).hits;
      GreedyHits(m, width, ordered, |m|);
      if ordered {
        AllMarkedOrdered(h, width);
      } else {
        AllMarkedUnordered(h, width);
      }
    }
  }

  // ---------- the verdict, without the loops ----------

  /** Each of these hits is what its expected element chooses after the ones before. */
  ghost predicate Chosen(m: Matrix, ordered: bool, hits: Hits) {
    && |hits| <= |m|
    && forall i :: 0 <= i < |hits| ==> Chooses(m[i], hits[..i], ordered, hits[i])
  }

  lemma ChosenNext(m: Matrix, ordered: bool, front: Hits, next: Option<nat>)
    requires |front| < |m|
    ensures Chosen(m, ordered, front + [next]) <==>
      Chosen(m, ordered, front) && Chooses(m[|front|], front, ordered, next)
  {
    var hits := front + [next];
    assert hits[..|front|] == front && hits[|front|] == next;
    assert forall i :: 0 <= i < |front| ==> hits[..i] == front[..i] && hits[i] == front[i];
  }

  lemma GreedyNext(m: Matrix, ordered: bool, front: Hits)
    requires |front| < |m| && Greedy(m, ordered, |front|) == Ran(front)
    ensures Greedy(m, ordered, |front| + 1).Stopped? <==> Breaks(m[|front|], front, ordered)
    ensures forall next :: Greedy(m, ordered, |front| + 1) == Ran(front + [next]) <==> Chooses(m[|front|], front, ordered, next)
  {
    if ordered {
      OrderedClimbs(m, |front|);
    }
    StepIs(m[|front|], ordered, front);
  }

  lemma {:induction false} GreedyIs(m: Matrix, ordered: bool, hits: Hits)
    requires |hits| <= |m|
    ensures Greedy(m, ordered, |hits|) == Ran(hits) <==> Chosen(m, ordered, hits)
  {
    if hits != [] {
      var n := |hits| - 1;
      var front, next := hits[..n], hits[n];
      assert hits == front + [next];
      GreedyIs(m, ordered, front);
      ChosenNext(m, ordered, front, next);
      if Greedy(m, ordered, |hits|) == Ran(hits) {
        GreedyPrefix(m, ordered, n, |hits|);
      }
      if Greedy(m, ordered, n) == Ran(front) {
        GreedyNext(m, ordered, front);
      }
    }
  }

  lemma {:induction false} StoppedAt(m: Matrix, ordered: bool, n: nat) returns (i: nat)
    requires n <= |m| && Greedy(m, ordered, n).Stopped?
    ensures i < n && Greedy(m, ordered, i).Ran? && Greedy(m, ordered, i + 1).Stopped?
  {
    if Greedy(m, ordered, n - 1).Stopped? {
      i := StoppedAt(m, ordered, n - 1);
    } else {
      i := n - 1;
    }
  }

  /** Some expected element, after the choices of the ones before, first meets a comparison that fails. */
  ghost predicate Fails(m: Matrix, ordered: bool) {
    exists hits :: |hits| < |m| && Chosen(m, ordered, hits) && Breaks(m[|hits|], hits, ordered)
  }

  lemma StoppedFails(m: Matrix, ordered: bool)
    requires Greedy(m, ordered, |m|).Stopped?
    ensures Fails(m, ordered)
  {
    var i := StoppedAt(m, ordered, |m|);
    var hits := Greedy(m, ordered, i).hits;
    GreedyIs(m, ordered, hits);
    GreedyNext(m, ordered, hits);
  }

  lemma {:induction false} StaysStopped(m: Matrix, ordered: bool, i: nat, n: nat)
    requires i <= n <= |m| && Greedy(m, ordered, i).Stopped?
    ensures Greedy(m, ordered, n).Stopped?
    decreases n
  {
    if i < n {
      StaysStopped(m, ordered, i, n - 1);
    }
  }

  lemma BreakStops(m: Matrix, ordered: bool, hits: Hits)
    requires |hits| < |m| && Chosen(m, ordered, hits) && Breaks(m[|hits|], hits, ordered)
    ensures Greedy(m, ordered, |m|).Stopped?
  {
    GreedyIs(m, ordered, hits);
    GreedyNext(m, ordered, hits);
    StaysStopped(m, ordered, |hits| + 1, |m|);
  }

  /**
   The outcome of an array for any matrix: an error iff an expected element meets one before it is
   decided, and a match iff every element chooses a position, all of them being used under no_extra.
   */
  lemma VerdictIs(m: Matrix, width: nat, ordered: bool, noExtra: bool)
    requires Shaped(m, width)
    ensures ArrayVerdict(m, width, ordered, noExtra) == Malformed <==> |m| <= width && Fails(m, ordered)
    ensures ArrayVerdict(m, width, ordered, noExtra) == YES <==>
      && |m| <= width && (noExtra ==> |m| == width)
      && exists hits :: |hits| == |m| && Chosen(m, ordered, hits) && AllHit(hits)
  {
    if Greedy(m, ordered, |m|).Stopped? {
      StoppedFails(m, ordered);
    } else if hits :| |hits| < |m| && Chosen(m, ordered, hits) && Breaks(m[|hits|], hits, ordered) {
      BreakStops(m, ordered, hits);
      assert false;
    }
    NoExtraMeansSameLength(m, width, ordered);
    if Greedy(m, ordered, |m|).Ran? {
      GreedyIs(m, ordered, Greedy(m, ordered, |m|).hits);
    }
    forall hits | |hits| == |m| && Chosen(m, ordered, hits) ensures Greedy(m, ordered, |m|) == Ran(hits) {
      GreedyIs(m, ordered, hits);
    }
  }

  // ---------- ordered mode ----------

  /** Greedy in order never runs past an embedding. */
  lemma {:induction false} OrderedStaysBelow(m: Matrix, width: nat, f: seq<nat>, n: nat)
    requires Shaped(m, width) && n <= |m| && Greedy(m, true, n).Ran?
    requires Matches(f, m) && Increasing(f)
    ensures AllHit(Greedy(m, true, n).hits)
    ensures n > 0 ==> After(Greedy(m, true, n).hits) <= f[n - 1] + 1
  {
    if n > 0 {
      OrderedStaysBelow(m, width, f, n - 1);
      var g := Greedy(m, true, n - 1).hits;
      assert After(g) <= f[n - 1];
    }
  }

  lemma OrderedExact(m: Matrix, width: nat)
    requires Shaped(m, width) && NoneMalformed(m)
    ensures ArrayVerdict(m, width, true, false) == YES <==> exists f :: Matches(f, m) && Increasing(f)
  {
    GreedyNotStopped(m, true, |m|);
    if ArrayVerdict(m, width, true, false) == YES {
      var h := Greedy(m, true, |m|).hits;
      GreedyHits(m, width, true, |m|);
      assert Matches(Values(h), m) && Increasing(Values(h));
    }
    if f :| Matches(f, m) && Increasing(f) {
      OrderedStaysBelow(m, width, f, |m|);
      IncreasingBound(f, width);
    }
  }

  lemma {:induction false} IncreasingBound(f: seq<nat>, width: nat)
    requires Increasing(f) && forall i :: 0 <= i < |f| ==> f[i] < width
    ensures |f| <= width
    ensures forall i :: 0 <= i < |f| ==> i <= f[i]
  {
    if f != [] {
      var n := |f| - 1;
      IncreasingBound(f[..n], f[n]);
      assert forall i :: 0 <= i < n ==> f[..n][i] == f[i];
    }
  }

  lemma OrderedNoExtraExact(m: Matrix, width: nat)
    requires Shaped(m, width) && NoneMalformed(m)
    ensures ArrayVerdict(m, width, true, true) == YES <==>
            |m| == width && forall i :: 0 <= i < |m| ==> m[i][i] == YES
  {
    NoExtraMeansSameLength(m, width, true);
    OrderedExact(m, width);
    if |m| == width {
      var id := seq(width, i => i);
      if forall i :: 0 <= i < |m| ==> m[i][i] == YES {
        assert Matches(id, m) && Increasing(id);
      }
      if f :| Matches(f, m) && Increasing(f) {
        SqueezedIsIdentity(f);
      }
    }
  }

  lemma {:induction false} SqueezedIsIdentity(f: seq<nat>)
    requires Increasing(f) && forall i :: 0 <= i < |f| ==> f[i] < |f|
    ensures forall i :: 0 <= i < |f| ==> f[i] == i
  {
    IncreasingBound(f, |f|);
    if f != [] {
      var n := |f| - 1;
      var g := f[..n];
      assert forall i :: 0 <= i < n ==> g[i] == f[i] && f[i] < f[n];
      SqueezedIsIdentity(g);
    }
  }

  // ---------- unordered mode ----------

  lemma UnorderedSound(m: Matrix, width: nat, noExtra: bool)
    requires Shaped(m, width) && ArrayVerdict(m, width, false, noExtra) == YES
    ensures exists f :: Matches(f, m) && Injective(f) && (noExtra ==> Onto(f, width))
  {
    var h := Greedy(m, false, |m|).hits;
    GreedyHits(m, width, false, |m|);
    var f := Values(h);
    if noExtra {
      forall k: nat | k < width ensures k in f {
        assert k in Marked(h, false);
        var i :| 0 <= i < |h| && h[i].Some? && h[i].value == k;
        assert f[i] == k;
      }
    }
    assert Matches(f, m) && Injective(f);
  }

  lemma InjectiveBound(f: seq<nat>, width: nat)
    requires Injective(f) && forall i :: 0 <= i < |f| ==> f[i] < width
    ensures |f| <= width
  {
    var hits: Hits := seq(|f|, i requires 0 <= i < |f| => Some(f[i]));
    TakenSize(hits);
    assert Taken(hits) <= Below(width);
    SubsetSize(Taken(hits), Below(width));
  }

  /** f agrees with the first n greedy choices. */
  ghost predicate Agrees(f: seq<nat>, hits: Hits) {
    |hits| <= |f| && forall i :: 0 <= i < |hits| ==> hits[i] == Some(f[i])
  }

  /** The exchange step: an assignment can be bent to follow the next greedy choice. */
  lemma Exchange(m: Matrix, width: nat, hits: Hits, f: seq<nat>) returns (f': seq<nat>)
    requires Shaped(m, width) && NoneMalformed(m) && NestedOrDisjoint(m)
    requires |hits| < |m| && Matches(f, m) && Injective(f) && Agrees(f, hits)
    ensures Step(m[|hits|], false, hits).Ran?
    ensures Matches(f', m) && Injective(f') && Agrees(f', Step(m[|hits|], false, hits).hits)
  {
    var i := |hits|;
    var row := m[i];
    assert f[i] !in Taken(hits);
    var scan := Scan(row, 0, Taken(hits));
    assert row[f[i]] == YES;
    var j := scan.pos;
    assert forall k :: 0 <= k < i ==> f[k] in Taken(hits) by {
      forall k | 0 <= k < i ensures f[k] in Taken(hits) {
        assert hits[k] == Some(f[k]);
      }
    }
    if k :| i < k < |f| && f[k] == j {
      assert Nested(m, i, k, j, f[i]);
      f' := f[i := j][k := f[i]];
    } else {
      f' := f[i := j];
    }
  }

  lemma {:induction false} GreedyFollows(m: Matrix, width: nat, f: seq<nat>, n: nat) returns (f': seq<nat>)
    requires Shaped(m, width) && NoneMalformed(m) && NestedOrDisjoint(m) && n <= |m|
    requires Matches(f, m) && Injective(f)
    ensures Greedy(m, false, n).Ran?
    ensures Matches(f', m) && Injective(f') && Agrees(f', Greedy(m, false, n).hits)
  {
    if n == 0 {
      f' := f;
    } else {
      var g := GreedyFollows(m, width, f, n - 1);
      f' := Exchange(m, width, Greedy(m, false, n - 1).hits, g);
    }
  }

  /** Greedy is exact wherever competing expected elements are nested or disjoint. */
  lemma UnorderedExact(m: Matrix, width: nat)
    requires Shaped(m, width) && NoneMalformed(m) && NestedOrDisjoint(m)
    ensures ArrayVerdict(m, width, false, false) == YES <==> exists f :: Matches(f, m) && Injective(f)
  {
    if ArrayVerdict(m, width, false, false) == YES {
      UnorderedSound(m, width, false);
    }
    if f :| Matches(f, m) && Injective(f) {
      InjectiveBound(f, width);
      var f' := GreedyFollows(m, width, f, |m|);
    }
  }

  // ---------- from ordered to unordered ----------

  /** Unordered greedy never takes a slot beyond the one an ordered embedding uses for the same element. */
  lemma {:induction false} UnorderedStaysBelow(m: Matrix, width: nat, f: seq<nat>, n: nat)
    requires Shaped(m, width) && NoneMalformed(m) && n <= |m|
    requires Matches(f, m) && Increasing(f)
    ensures Greedy(m, false, n).Ran?
    ensures var h := Greedy(m, false, n).hits; forall i :: 0 <= i < n ==> h[i].Some? && h[i].value <= f[i]
  {
    GreedyNotStopped(m, false, n);
    if n > 0 {
      UnorderedStaysBelow(m, width, f, n - 1);
      var g := Greedy(m, false, n - 1).hits;
      assert f[n - 1] !in Taken(g);
      assert m[n - 1][f[n - 1]] == YES;
    }
  }

  /** An embedding for the strict outcomes makes the unordered run over weaker outcomes succeed. */
  lemma EmbeddingImpliesUnordered(strict: Matrix, lax: Matrix, width: nat)
    requires Shaped(strict, width) && Shaped(lax, width) && |strict| == |lax| && NoneMalformed(lax)
    requires forall i, j :: 0 <= i < |strict| && 0 <= j < width && strict[i][j] == YES ==> lax[i][j] == YES
    requires ArrayVerdict(strict, width, true, false) == YES
    ensures ArrayVerdict(lax, width, false, false) == YES
  {
    var h := Greedy(strict, true, |strict|).hits;
    GreedyHits(strict, width, true, |strict|);
    var f := Values(h);
    assert Matches(f, lax) && Increasing(f);
    UnorderedStaysBelow(lax, width, f, |lax|);
  }

  // ---------- the diagonal ----------

  ghost function Identity(n: nat): (h: Hits)
    ensures |h| == n && AllHit(h)
    ensures forall i: nat :: i < n ==> h[i] == Some(i)
    ensures After(h) == n
  {
    if n == 0 then [] else
      var h := Identity(n - 1);
      assert (h + [Some(n - 1)])[..n - 1] == h;
      h + [Some(n - 1)]
  }

  lemma TakenByIdentity(n: nat)
    ensures forall k: nat :: k in Taken(Identity(n)) <==> k < n
  {
    var h := Identity(n);
    forall k: nat | k < n ensures k in Taken(h) {
      assert h[k] == Some(k);
    }
  }

  /** When every element matches itself, greedy picks the identity in both modes. */
  lemma {:induction false} DiagonalHits(m: Matrix, width: nat, ordered: bool, n: nat)
    requires Shaped(m, width) && n <= |m| <= width
    requires forall i :: 0 <= i < n ==> m[i][i] == YES
    ensures Greedy(m, ordered, n) == Ran(Identity(n))
  {
    if n > 0 {
      DiagonalHits(m, width, ordered, n - 1);
      if !ordered {
        TakenByIdentity(n - 1);
        ScanSkipsTaken(m[n - 1], 0, Taken(Identity(n - 1)), n - 1);
      }
    }
  }

  lemma {:induction false} ScanSkipsTaken(row: seq<Outcome>, from: nat, taken: set<nat>, target: nat)
    requires from <= target < |row| && row[target] == YES && target !in taken
    requires forall k: nat :: from <= k < target ==> k in taken
    ensures Scan(row, from, taken) == At(target)
    decreases target - from
  {
    if from < target {
      ScanSkipsTaken(row, from + 1, taken, target);
    }
  }

  lemma DiagonalVerdict(m: Matrix, ordered: bool, noExtra: bool)
    requires Shaped(m, |m|)
    requires forall i :: 0 <= i < |m| ==> m[i][i] == YES
    ensures ArrayVerdict(m, |m|, ordered, noExtra) == YES
  {
    DiagonalHits(m, |m|, ordered, |m|);
    NoExtraMeansSameLength(m, |m|, ordered);
  }

  // ---------- a slot that greedy misses ----------

  lemma {:induction false} ImageSize(hits: Hits, rows: set<nat>)
    requires AllHit(hits) && forall i :: i in rows ==> i < |hits|
    ensures |set i | i in rows && i < |hits| :: hits[i].value| <= |rows|
  {
    var image := set i | i in rows && i < |hits| :: hits[i].value;
    if rows == {} {
      assert image == {};
    } else {
      var x :| x in rows;
      var rest := set i | i in rows - {x} && i < |hits| :: hits[i].value;
      ImageSize(hits, rows - {x});
      assert image == rest + {hits[x].value};
    }
  }

  /** A successful run over a square matrix uses every column. */
  lemma AllColumnsTaken(m: Matrix, c: nat) returns (i: nat)
    requires Shaped(m, |m|) && ArrayVerdict(m, |m|, false, false) == YES && c < |m|
    ensures i < |m| && Greedy(m, false, |m|).hits[i] == Some(c) && m[i][c] == YES
  {
    var h := Greedy(m, false, |m|).hits;
    GreedyHits(m, |m|, false, |m|);
    TakenSize(h);
    assert Taken(h) <= Below(|m|);
    SubsetSize(Taken(h), Below(|m|));
    assert c in Taken(h);
    i :| 0 <= i < |h| && h[i] == Some(c);
  }

  /** One column more than rows: some column is the hit of none of them. */
  lemma UnservedColumn(hits: Hits, rows: set<nat>, k: nat) returns (c: nat)
    requires AllHit(hits) && k !in rows && forall i :: i in rows ==> i < |hits|
    ensures c == k || c in rows
    ensures forall i :: i in rows ==> hits[i] != Some(c)
  {
    var image := set i | i in rows && i < |hits| :: hits[i].value;
    ImageSize(hits, rows);
    assert |rows + {k}| == |rows| + 1;
    if rows + {k} <= image {
      SubsetSize(rows + {k}, image);
    }
    c :| c in rows + {k} && c !in image;
  }

  /** Rows before k take the diagonal, so a column from k on is taken by a row from k on. */
  lemma LaterColumn(m: Matrix, k: nat, c: nat) returns (i: nat)
    requires Shaped(m, |m|) && ArrayVerdict(m, |m|, false, false) == YES && k <= c < |m|
    requires forall j :: 0 <= j < k ==> m[j][j] == YES
    ensures k <= i < |m| && Greedy(m, false, |m|).hits[i] == Some(c) && m[i][c] == YES
  {
    DiagonalHits(m, |m|, false, k);
    GreedyPrefix(m, false, k, |m|);
    var h := Greedy(m, false, |m|).hits;
    assert forall j :: 0 <= j < k ==> h[..k][j] == h[j];
    i := AllColumnsTaken(m, c);
  }

  ghost predicate OwnColumns(m: Matrix, k: nat, rows: set<nat>)
    requires Shaped(m, |m|)
  {
    forall i, c: nat :: k <= i < |m| && c < |m| && (c == k || c in rows) && m[i][c] == YES ==> i in rows
  }

  /**
   The rows before k match on the diagonal. From k on, one column more than there are rows
   in `rows` is matched by these rows only: greedy cannot serve every row.
   */
  lemma SlotMissed(m: Matrix, k: nat, rows: set<nat>, noExtra: bool)
    requires Shaped(m, |m|) && k < |m| && (forall j :: j in rows ==> k < j < |m|)
    requires forall i :: 0 <= i < k ==> m[i][i] == YES
    requires OwnColumns(m, k, rows)
    ensures ArrayVerdict(m, |m|, false, noExtra) != YES
  {
    NoExtraMeansSameLength(m, |m|, false);
    if ArrayVerdict(m, |m|, false, false) == YES {
      var c := UnservedColumn(Greedy(m, false, |m|).hits, rows, k);
      var i := LaterColumn(m, k, c);
    }
  }

  /** Two expected elements, the second of which matches the first column only. */
  ghost predicate SecondNeedsFirst(m: Matrix) {
    && |m| == 2 && Shaped(m, 2)
    && m[0][0] != Malformed && m[0][1] == YES && m[1][0] == YES && m[1][1] == Verdict(false)
  }

  /** The pair matches exactly if the first element misses that column: missing a match helps. */
  lemma MissHelps(m: Matrix, noExtra: bool)
    requires SecondNeedsFirst(m)
    ensures ArrayVerdict(m, 2, false, noExtra) == Verdict(m[0][0] == Verdict(false))
  {
    GreedyNotStopped(m, false, 2);
    if m[0][0] == YES {
      SlotMissed(m, 1, {}, noExtra);
    } else {
      assert Matches([1, 0], m) && Injective([1, 0]);
      UnorderedExact(m, 2);
      NoExtraMeansSameLength(m, 2, false);
    }
  }
}

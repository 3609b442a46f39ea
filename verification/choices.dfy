/**
 The array loops when each comparison may have one of several outcomes: what an inner loop
 may find, what the outer loop's variables say, and the verdicts that may come out.
 */
module Choices {
  import opened Wrappers
  import opened Matching

  /** The outcomes that comparing one expected element with each actual element may have. */
  type Offer = seq<set<Outcome>>

  type Grid = seq<Offer>

  ghost predicate Drawn(row: seq<Outcome>, offer: Offer) {
    |row| == |offer| && forall j :: 0 <= j < |row| ==> row[j] in offer[j]
  }

  ghost predicate Open(offer: Offer) {
    forall j :: 0 <= j < |offer| ==> offer[j] != {}
  }

  ghost predicate DrawnRows(m: Matrix, grid: Grid) {
    |m| <= |grid| && forall i :: 0 <= i < |m| ==> Drawn(m[i], grid[i])
  }

  ghost predicate OpenGrid(grid: Grid, width: nat) {
    forall i :: 0 <= i < |grid| ==> |grid[i]| == width && Open(grid[i])
  }

  /** The verdicts of the matrices that may be drawn. */
  ghost predicate MayEnd(grid: Grid, width: nat, ordered: bool, noExtra: bool, o: Outcome) {
    exists m :: DrawnRows(m, grid) && |m| == |grid| && o == ArrayVerdict(m, width, ordered, noExtra)
  }

  lemma {:induction false} SomeDraw(offer: Offer) returns (row: seq<Outcome>)
    requires Open(offer)
    ensures Drawn(row, offer)
  {
    if offer == [] {
      row := [];
    } else {
      var n := |offer| - 1;
      var front := SomeDraw(offer[..n]);
      var o :| o in offer[n];
      row := front + [o];
    }
  }

  /** Rows for the expected elements that are not covered yet. */
  lemma {:induction false} SomeRows(m: Matrix, grid: Grid, width: nat) returns (full: Matrix)
    requires OpenGrid(grid, width) && DrawnRows(m, grid)
    ensures DrawnRows(full, grid) && |full| == |grid| && m <= full
    decreases |grid| - |m|
  {
    if |m| == |grid| {
      full := m;
    } else {
      var row := SomeDraw(grid[|m|]);
      full := SomeRows(m + [row], grid, width);
    }
  }

  // ---------- the inner loop ----------

  /** What scanning the actual elements from this position may find. */
  ghost predicate MayScan(offer: Offer, from: nat, taken: set<nat>, found: Found) {
    exists row :: Drawn(row, offer) && found == Scan(row, from, taken)
  }

  /** The scan may have passed the actual elements before rk without a match. */
  ghost predicate MayPass(offer: Offer, from: nat, taken: set<nat>, rk: nat) {
    exists row :: Drawn(row, offer) && Passed(row, from, taken, rk)
  }

  ghost predicate Passed(row: seq<Outcome>, from: nat, taken: set<nat>, rk: nat) {
    rk <= |row| && forall k: nat :: from <= k < rk && k !in taken ==> row[k] == Verdict(false)
  }

  lemma PassNone(offer: Offer, from: nat, taken: set<nat>)
    requires Open(offer)
    ensures MayPass(offer, from, taken, 0)
  {
    var row := SomeDraw(offer);
    assert Passed(row, from, taken, 0);
  }

  /** An actual element that is skipped. */
  lemma PassSkipped(offer: Offer, from: nat, taken: set<nat>, rk: nat)
    requires rk < |offer| && MayPass(offer, from, taken, rk) && (rk < from || rk in taken)
    ensures MayPass(offer, from, taken, rk + 1)
  {
    var row :| Drawn(row, offer) && Passed(row, from, taken, rk);
    assert Passed(row, from, taken, rk + 1);
  }

  /** An actual element that is compared either ends the scan or is passed. */
  lemma PassCompared(offer: Offer, from: nat, taken: set<nat>, rk: nat, o: Outcome)
    requires from <= rk < |offer| && rk !in taken && o in offer[rk] && MayPass(offer, from, taken, rk)
    ensures match o
      case Malformed => MayScan(offer, from, taken, Broken)
      case Verdict(equal) => if equal then MayScan(offer, from, taken, At(rk)) else MayPass(offer, from, taken, rk + 1)
  {
    var before :| Drawn(before, offer) && Passed(before, from, taken, rk);
    var row := before[rk := o];
    assert Drawn(row, offer);
    ScanPast(row, from, rk, taken);
    if o == Verdict(false) {
      assert Passed(row, from, taken, rk + 1);
    }
  }

  lemma PassAll(offer: Offer, from: nat, taken: set<nat>)
    requires MayPass(offer, from, taken, |offer|)
    ensures MayScan(offer, from, taken, Missing)
  {
    var row :| Drawn(row, offer) && Passed(row, from, taken, |offer|);
    ScanPast(row, from, |row|, taken);
    assert Scan(row, from, taken) == Missing;
  }

  // ---------- the outer loop over one matrix ----------

  lemma HitMarks(hits: Hits, ordered: bool, pos: nat)
    ensures Marked(hits + [Some(pos)], ordered) == Marked(hits, ordered) + {if ordered then |hits| else pos}
  {
    var longer := hits + [Some(pos)];
    assert longer[|hits|] == Some(pos);
    assert forall i :: 0 <= i < |hits| ==> longer[i] == hits[i];
  }

  lemma HitCounts(hits: Hits, pos: nat)
    ensures After(hits + [Some(pos)]) == pos + 1
    ensures AllHit(hits + [Some(pos)]) <==> AllHit(hits)
  {
    var longer := hits + [Some(pos)];
    assert forall i :: 0 <= i < |hits| ==> longer[i] == hits[i];
  }

  lemma HitMisses(hits: Hits, ordered: bool)
    ensures Marked(hits + [None], ordered) == Marked(hits, ordered)
    ensures After(hits + [None]) == After(hits)
    ensures !AllHit(hits + [None])
  {
    var longer := hits + [None];
    assert longer[|hits|] == None;
    assert longer[..|hits|] == hits;
    assert forall i :: 0 <= i < |hits| ==> longer[i] == hits[i];
  }

  /** What the variables of the outer loop say about the hits so far. */
  ghost predicate Tally(hits: Hits, ordered: bool, equal: bool, failures: nat, takenInRight: set<nat>, last: int) {
    && (equal <==> AllHit(hits))
    && (equal <==> failures == 0)
    && takenInRight == Marked(hits, ordered)
    && last >= -1 && (ordered ==> last + 1 == After(hits))
  }

  /** The outer loop has handled the first lk expected elements. */
  ghost predicate Progress(m: Matrix, ordered: bool, lk: nat, equal: bool, failures: nat, takenInRight: set<nat>, last: int) {
    lk <= |m| && Greedy(m, ordered, lk).Ran? && Tally(Greedy(m, ordered, lk).hits, ordered, equal, failures, takenInRight, last)
  }

  /** What the inner loop finds for an expected element, and the failures it collects when that is nothing. */
  ghost predicate Finds(row: seq<Outcome>, ordered: bool, taken: set<nat>, last: int, found: Found, missed: nat)
    requires last >= -1
  {
    && found == (if ordered then Scan(row, last + 1, {}) else Scan(row, 0, taken))
    && (found.Missing? ==> (missed > 0 <==> ordered || exists k: nat :: k < |row| && k !in taken))
  }

  lemma StoppedStays(m: Matrix, ordered: bool, i: nat, n: nat)
    requires i <= n <= |m| && Greedy(m, ordered, i).Stopped?
    ensures Greedy(m, ordered, n).Stopped?
    decreases n
  {
    if i < n {
      StoppedStays(m, ordered, i, n - 1);
    }
  }

  /** The first rows of a matrix decide the run over them. */
  lemma GreedyOfPrefix(m: Matrix, full: Matrix, ordered: bool, i: nat)
    requires m <= full && i <= |m|
    ensures Greedy(full, ordered, i) == Greedy(m, ordered, i)
  {
    if i > 0 {
      GreedyOfPrefix(m, full, ordered, i - 1);
    }
  }

  lemma NextRow(m: Matrix, row: seq<Outcome>, ordered: bool, equal: bool, failures: nat, taken: set<nat>, last: int)
    requires Progress(m, ordered, |m|, equal, failures, taken, last)
    ensures Progress(m + [row], ordered, |m|, equal, failures, taken, last)
  {
    GreedyOfPrefix(m, m + [row], ordered, |m|);
  }

  lemma BrokenRow(m: Matrix, full: Matrix, ordered: bool, lk: nat,
                  equal: bool, failures: nat, taken: set<nat>, last: int, missed: nat)
    requires lk < |m| && m <= full && Progress(m, ordered, lk, equal, failures, taken, last)
    requires Finds(m[lk], ordered, taken, last, Broken, missed)
    ensures Greedy(full, ordered, |full|).Stopped?
  {
    assert Greedy(m, ordered, lk + 1) == Step(m[lk], ordered, Greedy(m, ordered, lk).hits);
    GreedyOfPrefix(m, full, ordered, lk + 1);
    StoppedStays(full, ordered, lk + 1, |full|);
  }

  lemma HitRow(m: Matrix, ordered: bool, lk: nat, equal: bool, failures: nat, taken: set<nat>, last: int,
               pos: nat, missed: nat)
    requires lk < |m| && Progress(m, ordered, lk, equal, failures, taken, last)
    requires Finds(m[lk], ordered, taken, last, At(pos), missed)
    ensures Progress(m, ordered, lk + 1, equal, failures, taken + {if ordered then lk else pos}, pos)
  {
    var hits := Greedy(m, ordered, lk).hits;
    assert Greedy(m, ordered, lk + 1) == Step(m[lk], ordered, hits);
    HitMarks(hits, ordered, pos);
    HitCounts(hits, pos);
  }

  lemma MissedRow(m: Matrix, ordered: bool, lk: nat, equal: bool, failures: nat, taken: set<nat>, last: int, missed: nat)
    requires lk < |m| && lk < |m[lk]| && Progress(m, ordered, lk, equal, failures, taken, last)
    requires Finds(m[lk], ordered, taken, last, Missing, missed)
    ensures Progress(m, ordered, lk + 1, false, failures + missed, taken, last)
  {
    var hits := Greedy(m, ordered, lk).hits;
    assert Greedy(m, ordered, lk + 1) == Step(m[lk], ordered, hits);
    HitMisses(hits, ordered);
    UntakenExists(hits, |m[lk]|);
  }

  /** The verdict of a complete run, from the loop's variables. */
  lemma RunVerdict(m: Matrix, width: nat, ordered: bool, noExtra: bool,
                   equal: bool, failures: nat, taken: set<nat>, last: int)
    requires |m| <= width && Progress(m, ordered, |m|, equal, failures, taken, last)
    ensures ArrayVerdict(m, width, ordered, noExtra) ==
      Verdict(equal && (noExtra ==> forall k: nat :: k < width ==> k in taken))
    ensures equal <==> failures == 0
  {
  }

  // ---------- the outer loop over the matrices that may be drawn ----------

  /** What the inner loop may find for an expected element, with the failures it collects. */
  ghost predicate MayFind(offer: Offer, ordered: bool, taken: set<nat>, last: int, found: Found, missed: nat)
    requires last >= -1
  {
    && MayScan(offer, if ordered then last + 1 else 0, if ordered then {} else taken, found)
    && (found.Missing? ==> (missed > 0 <==> ordered || exists k: nat :: k < |offer| && k !in taken))
  }

  /** The outer loop may have handled the first lk expected elements with these results. */
  ghost predicate MayProgress(grid: Grid, ordered: bool, lk: nat, equal: bool, failures: nat, taken: set<nat>, last: int) {
    exists m :: DrawnRows(m, grid) && |m| == lk && Progress(m, ordered, lk, equal, failures, taken, last)
  }

  lemma StartProgress(grid: Grid, ordered: bool)
    ensures MayProgress(grid, ordered, 0, true, 0, {}, -1)
  {
    assert Progress([], ordered, 0, true, 0, {}, -1);
  }

  lemma FoundRow(offer: Offer, ordered: bool, taken: set<nat>, last: int, found: Found, missed: nat)
    returns (row: seq<Outcome>)
    requires last >= -1 && MayFind(offer, ordered, taken, last, found, missed)
    ensures Drawn(row, offer) && Finds(row, ordered, taken, last, found, missed)
  {
    row :| Drawn(row, offer) && found == Scan(row, if ordered then last + 1 else 0, if ordered then {} else taken);
  }

  lemma NextElement(grid: Grid, ordered: bool, lk: nat, equal: bool, failures: nat, taken: set<nat>, last: int,
                    found: Found, missed: nat)
    returns (m: Matrix)
    requires lk < |grid| && last >= -1
    requires MayProgress(grid, ordered, lk, equal, failures, taken, last)
    requires MayFind(grid[lk], ordered, taken, last, found, missed)
    ensures DrawnRows(m, grid) && |m| == lk + 1
    ensures Progress(m, ordered, lk, equal, failures, taken, last)
    ensures Finds(m[lk], ordered, taken, last, found, missed)
  {
    var before :| DrawnRows(before, grid) && |before| == lk && Progress(before, ordered, lk, equal, failures, taken, last);
    var row := FoundRow(grid[lk], ordered, taken, last, found, missed);
    NextRow(before, row, ordered, equal, failures, taken, last);
    m := before + [row];
  }

  lemma HitElement(grid: Grid, ordered: bool, lk: nat, equal: bool, failures: nat, taken: set<nat>, last: int,
                   pos: nat, missed: nat)
    requires lk < |grid| && last >= -1
    requires MayProgress(grid, ordered, lk, equal, failures, taken, last)
    requires MayFind(grid[lk], ordered, taken, last, At(pos), missed)
    ensures MayProgress(grid, ordered, lk + 1, equal, failures, taken + {if ordered then lk else pos}, pos)
  {
    var m := NextElement(grid, ordered, lk, equal, failures, taken, last, At(pos), missed);
    HitRow(m, ordered, lk, equal, failures, taken, last, pos, missed);
  }

  lemma MissedElement(grid: Grid, width: nat, ordered: bool, lk: nat, equal: bool, failures: nat, taken: set<nat>,
                      last: int, missed: nat)
    requires OpenGrid(grid, width) && lk < |grid| <= width && last >= -1
    requires MayProgress(grid, ordered, lk, equal, failures, taken, last)
    requires MayFind(grid[lk], ordered, taken, last, Missing, missed)
    ensures MayProgress(grid, ordered, lk + 1, false, failures + missed, taken, last)
  {
    var m := NextElement(grid, ordered, lk, equal, failures, taken, last, Missing, missed);
    MissedRow(m, ordered, lk, equal, failures, taken, last, missed);
  }

  /** An error is the verdict, whatever the elements that are not reached. */
  lemma BrokenElement(grid: Grid, width: nat, ordered: bool, noExtra: bool, lk: nat,
                      equal: bool, failures: nat, taken: set<nat>, last: int, missed: nat)
    requires OpenGrid(grid, width) && lk < |grid| <= width && last >= -1
    requires MayProgress(grid, ordered, lk, equal, failures, taken, last)
    requires MayFind(grid[lk], ordered, taken, last, Broken, missed)
    ensures MayEnd(grid, width, ordered, noExtra, Malformed)
  {
    var m := NextElement(grid, ordered, lk, equal, failures, taken, last, Broken, missed);
    var full := SomeRows(m, grid, width);
    BrokenRow(m, full, ordered, lk, equal, failures, taken, last, missed);
  }

  /** The verdict of a complete run, from the loop's variables. */
  lemma CompleteRun(grid: Grid, width: nat, ordered: bool, noExtra: bool,
                    equal: bool, failures: nat, taken: set<nat>, last: int)
    requires |grid| <= width && MayProgress(grid, ordered, |grid|, equal, failures, taken, last)
    ensures equal <==> failures == 0
    ensures MayEnd(grid, width, ordered, noExtra,
                   Verdict(equal && (noExtra ==> forall k: nat :: k < width ==> k in taken)))
  {
    var m :| DrawnRows(m, grid) && |m| == |grid| && Progress(m, ordered, |m|, equal, failures, taken, last);
    RunVerdict(m, width, ordered, noExtra, equal, failures, taken, last);
  }

  /** More expected than actual elements. */
  lemma TooFew(grid: Grid, width: nat, ordered: bool, noExtra: bool)
    requires OpenGrid(grid, width) && |grid| > width
    ensures MayEnd(grid, width, ordered, noExtra, Verdict(false))
  {
    var full := SomeRows([], grid, width);
    assert ArrayVerdict(full, width, ordered, noExtra) == Verdict(false);
  }
}

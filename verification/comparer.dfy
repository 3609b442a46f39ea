/** The comparer as it runs: the type dispatch, and the object and array loops. */
module Comparer {
  import opened Wrappers
  import opened JsonValues
  import opened MapOrders
  import opened Control
  import opened Matching
  import opened Comparison
  import opened Choices
  import opened Runs
  import opened Settling
  import opened Outcomes

  /** A comparison ends with an error, or with a verdict and the number of failures recorded. */
  datatype CompareResult = Error | Done(equal: bool, failures: nat)

  /** An error-free comparison is equal exactly when it recorded no failure. */
  ghost predicate Consistent(res: CompareResult) {
    res.Done? ==> (res.equal <==> res.failures == 0)
  }

  function OutcomeOf(res: CompareResult): Outcome {
    if res.Error? then Malformed else Verdict(res.equal)
  }

  const MATCH := Done(true, 0)
  const MISMATCH := Done(false, 1)

  /** Of any two values; what the orders of Go's maps leave open is settled for a clear expected value. */
  method JsonEqual(lib: Library, left: Json, right: Json, control: Context) returns (res: CompareResult)
    ensures Consistent(res) && May(lib, left, right, control, OutcomeOf(res))
    ensures Clear(left) ==> OutcomeOf(res) == Compare(lib, left, right, control)
    decreases left, 4
  {
    if left.Null? && right.Null? {
      res := MATCH;
    } else if right.Null? {
      res := MISMATCH;
    } else {
      match left {
        case Obj(_) =>
          if right.Obj? {
            res := ObjectComparison(lib, left, right, control.NoExtra());
          } else {
            res := MISMATCH;
          }
        case Arr(_) =>
          if right.Arr? {
            ghost var grid := GridOf(lib, left, right, Next(control), |left.elems|);
            res := ArrayComparison(lib, left, right, control, Next(control), grid);
            MayEndIffMayArray(lib, left, right, control, Next(control), grid, OutcomeOf(res));
          } else {
            res := MISMATCH;
          }
        case Bool(_) | Num(_) | Str(_) =>
          res := if left == right then MATCH else MISMATCH;
        case Null =>
          res := MISMATCH;
      }
    }
    if Clear(left) {
      Determined(lib, left, right, control, OutcomeOf(res));
    }
  }

  // ---------- objects ----------

  method ObjectComparison(lib: Library, left: Json, right: Json, noExtra: bool) returns (res: CompareResult)
    requires left.Obj? && right.Obj?
    ensures Consistent(res) && MayObject(lib, left, right, noExtra, OutcomeOf(res))
    decreases left, 3
  {
    var equal, failures: nat := true, 0;
    var leftCopy := left.fields;
    // takenInLeft and takenInRight always hold the same keys
    var taken: set<string> := {};
    var rv, rOK := Null, false;
    var pending := leftCopy.Keys;
    ReachStart(lib, left, right);
    while pending != {}
      invariant pending <= left.fields.Keys && CopyOf(leftCopy, left.fields)
      invariant MayReach(lib, left, right, pending, Walking(leftCopy.Keys, taken, rv, rOK, equal))
      invariant equal <==> failures == 0
      decreases |pending|
    {
      var ck :| ck in pending;
      ghost var before := Walking(leftCopy.Keys, taken, rv, rOK, equal);
      // a key deleted before it is reached is not produced by the range loop
      if ck in leftCopy && ck !in taken {
        var tmp, deleted;
        tmp, deleted, rv, rOK := VisitKey(lib, left, right, leftCopy, taken, rv, rOK, equal, ck);
        if tmp.Error? {
          ReachStep(lib, left, right, pending, ck, before, Aborted);
          ReachAborted(lib, left, right, noExtra, pending - {ck});
          return Error;
        }
        leftCopy, taken := leftCopy - deleted, taken + {BaseOf(ck)};
        equal, failures := equal && tmp.equal, failures + tmp.failures;
      }
      ReachStep(lib, left, right, pending, ck, before, Walking(leftCopy.Keys, taken, rv, rOK, equal));
      pending := pending - {ck};
    }
    ReachEnd(lib, left, right, noExtra, Walking(leftCopy.Keys, taken, rv, rOK, equal));
    if noExtra && exists k :: k in right.fields && k !in taken {
      return Done(false, failures + 1);
    }
    return Done(equal, failures);
  }

  /** A walk over all keys but the pending ones may come to w. */
  ghost predicate MayReach(lib: Library, l: Json, r: Json, pending: set<string>, w: Walk)
    requires l.Obj? && r.Obj?
  {
    exists order :: IsOrder(order, l.fields.Keys - pending) && MayWalk(lib, l, r, order, w)
  }

  lemma ReachStart(lib: Library, l: Json, r: Json)
    requires l.Obj? && r.Obj?
    ensures MayReach(lib, l, r, l.fields.Keys, StartOf(l))
  {
    assert MayWalk(lib, l, r, [], StartOf(l));
  }

  lemma ReachStep(lib: Library, l: Json, r: Json, pending: set<string>, ck: string, w: Walk, w': Walk)
    requires l.Obj? && r.Obj? && ck in pending && pending <= l.fields.Keys && Within(w, l)
    requires MayReach(lib, l, r, pending, w) && MayVisit(lib, l, r, w, ck, w')
    ensures MayReach(lib, l, r, pending - {ck}, w')
  {
    var order :| IsOrder(order, l.fields.Keys - pending) && MayWalk(lib, l, r, order, w);
    assert pending - {ck} + {ck} == pending;
    OrderStep(l.fields.Keys, order, ck, pending - {ck});
    MayWalkStep(lib, l, r, order, ck, w, w');
  }

  lemma ReachEnd(lib: Library, l: Json, r: Json, noExtra: bool, w: Walk)
    requires l.Obj? && r.Obj? && MayReach(lib, l, r, {}, w)
    ensures MayObject(lib, l, r, noExtra, Ending(r, w, noExtra))
  {
    var order :| IsOrder(order, l.fields.Keys - {}) && MayWalk(lib, l, r, order, w);
    assert l.fields.Keys - {} == l.fields.Keys;
  }

  /** Once the walk is aborted, the keys still to come do not matter. */
  lemma ReachAborted(lib: Library, l: Json, r: Json, noExtra: bool, pending: set<string>)
    requires l.Obj? && r.Obj? && pending <= l.fields.Keys && MayReach(lib, l, r, pending, Aborted)
    ensures MayObject(lib, l, r, noExtra, Malformed)
  {
    var order :| IsOrder(order, l.fields.Keys - pending) && MayWalk(lib, l, r, order, Aborted);
    var rest := OrderExists(pending);
    var w := SomeWalk(lib, l, r, order, rest, Aborted);
    JoinOrders(l.fields.Keys, order, rest, pending);
    assert Ending(r, w, noExtra) == Malformed;
  }

  ghost predicate CopyOf(copy: map<string, Json>, fields: map<string, Json>) {
    forall k :: k in copy ==> k in fields && copy[k] == fields[k]
  }

  /** The body of the loop for a key not yet taken. */
  method VisitKey(lib: Library, left: Json, right: Json, leftCopy: map<string, Json>, taken: set<string>,
                  oldRv: Json, oldOK: bool, ghost equal: bool, ck: string)
    returns (tmp: CompareResult, deleted: set<string>, rv: Json, rOK: bool)
    requires left.Obj? && right.Obj? && CopyOf(leftCopy, left.fields) && ck in leftCopy && ck !in taken
    ensures Consistent(tmp)
    ensures MayVisit(lib, left, right, Walking(leftCopy.Keys, taken, oldRv, oldOK, equal), ck,
                     if tmp.Error? then Aborted
                     else Walking(leftCopy.Keys - deleted, taken + {BaseOf(ck)}, rv, rOK, equal && tmp.equal))
    decreases left, 2
  {
    ghost var before := Walking(leftCopy.Keys, taken, oldRv, oldOK, equal);
    var k := BaseOf(ck);
    // a base key taken before would be compared with the value read last
    if k in taken {
      rv, rOK := oldRv, oldOK;
    } else {
      rv, rOK := Lookup(right.fields, k), k in right.fields;
    }
    var control;
    control, deleted := DecodeControl(left, leftCopy, ck);
    if control.None? {
      tmp := Error;
    } else {
      tmp := CompareField(lib, left, k, rv, rOK, control.value);
    }
    assert MayOutcome(lib, left, right, before, ck, OutcomeOf(tmp));
    assert MayVisit(lib, left, right, before, ck, Moved(left, right, before, ck, OutcomeOf(tmp)));
  }

  /** The control in force for a visited key, and the control key to delete with it. */
  method DecodeControl(left: Json, leftCopy: map<string, Json>, ck: string)
    returns (control: Option<Context>, deleted: set<string>)
    requires left.Obj? && CopyOf(leftCopy, left.fields) && ck in leftCopy
    ensures MayControl(left, leftCopy.Keys, ck, control)
    ensures deleted == VisitedControl(left, leftCopy.Keys, ck).1
  {
    var own := IsControlKey(ck);
    var key := if own then ck else ControlKey(ck);
    if key in leftCopy && leftCopy[key].Obj? {
      control := FillComparisonContext(leftCopy[key].fields);
      deleted := {key};
    } else {
      control := if own then None else Some(EMPTY);
      deleted := {};
    }
  }

  /** The key functions, and the value if the expected object gives one. */
  method CompareField(lib: Library, left: Json, k: string, rv: Json, rOK: bool, control: Context)
    returns (res: CompareResult)
    requires left.Obj?
    ensures Consistent(res) && MayField(lib, left, k, rv, rOK, control, OutcomeOf(res))
    decreases left, 1
  {
    var lOK := k in left.fields;
    var c := if lOK then control.MustExist() else control;
    if !KeyChecks(lib, rv, rOK, c) {
      return MISMATCH;
    }
    if !lOK {
      return MATCH;
    }
    res := JsonEqual(lib, left.fields[k], rv, c);
  }

  // ---------- arrays ----------

  /** The inner loop of ordered mode: actual elements up to the last hit are skipped. */
  method FindInOrder(lib: Library, left: Json, right: Json, next: Context, last: int, ghost offer: Offer)
    returns (found: Found)
    requires right.Arr? && last >= -1 && Offers(offer, lib, left, right, next)
    ensures MayScan(offer, last + 1, {}, found)
    decreases left, 5
  {
    ghost var from: nat := last + 1;
    PassNone(offer, from, {});
    for rk := 0 to |right.elems|
      invariant MayPass(offer, from, {}, rk)
    {
      if rk <= last {
        PassSkipped(offer, from, {}, rk);
        continue;
      }
      var tmp := JsonEqual(lib, left, right.elems[rk], next);
      PassCompared(offer, from, {}, rk, OutcomeOf(tmp));
      if tmp.Error? {
        return Broken;
      }
      if tmp.equal {
        return At(rk);
      }
    }
    PassAll(offer, from, {});
    return Missing;
  }

  /** The inner loop of unordered mode: taken elements are skipped, failures of the others collected. */
  method FindUntaken(lib: Library, left: Json, right: Json, next: Context, taken: set<nat>, ghost offer: Offer)
    returns (found: Found, failures: nat)
    requires right.Arr? && Offers(offer, lib, left, right, next)
    ensures MayScan(offer, 0, taken, found)
    ensures found.Missing? ==> (failures > 0 <==> exists k: nat :: k < |right.elems| && k !in taken)
    decreases left, 5
  {
    failures := 0;
    PassNone(offer, 0, taken);
    for rk := 0 to |right.elems|
      invariant MayPass(offer, 0, taken, rk)
      invariant failures > 0 <==> exists k: nat :: k < rk && k !in taken
    {
      if rk in taken {
        PassSkipped(offer, 0, taken, rk);
        continue;
      }
      var tmp := JsonEqual(lib, left, right.elems[rk], next);
      PassCompared(offer, 0, taken, rk, OutcomeOf(tmp));
      if tmp.Error? {
        return Broken, failures;
      }
      if tmp.equal {
        return At(rk), failures;
      }
      failures := failures + tmp.failures;
    }
    PassAll(offer, 0, taken);
    return Missing, failures;
  }

  /** The body of the outer loop up to the inner loop's result. */
  method FindElement(lib: Library, left: Json, right: Json, next: Context, ordered: bool, last: int, taken: set<nat>,
                     ghost offer: Offer)
    returns (found: Found, missed: nat)
    requires right.Arr? && last >= -1 && Offers(offer, lib, left, right, next)
    ensures MayFind(offer, ordered, taken, last, found, missed)
    decreases left, 6
  {
    if ordered {
      found := FindInOrder(lib, left, right, next, last, offer);
      missed := 1;
    } else {
      found, missed := FindUntaken(lib, left, right, next, taken, offer);
    }
  }

  /** The grid holds what comparing each two elements may give. */
  method ArrayComparison(lib: Library, left: Json, right: Json, curr: Context, next: Context, ghost grid: Grid)
    returns (res: CompareResult)
    requires left.Arr? && right.Arr? && Spans(grid, lib, left, right, next)
    ensures Consistent(res) && MayEnd(grid, |right.elems|, curr.OrderMatters(), curr.NoExtra(), OutcomeOf(res))
    decreases left, 2
  {
    var width := |right.elems|;
    if |left.elems| > width {
      TooFew(grid, width, curr.OrderMatters(), curr.NoExtra());
      return MISMATCH;
    }
    var equal, failures: nat := true, 0;
    var takenInRight: set<nat> := {};
    var last: int := -1;
    var ordered := curr.OrderMatters();
    StartProgress(grid, ordered);
    for lk := 0 to |left.elems|
      invariant last >= -1
      invariant MayProgress(grid, ordered, lk, equal, failures, takenInRight, last)
    {
      var found, missed := FindElement(lib, left.elems[lk], right, next, ordered, last, takenInRight, grid[lk]);
      if found.Broken? {
        BrokenElement(grid, width, ordered, curr.NoExtra(), lk, equal, failures, takenInRight, last, missed);
        return Error;
      }
      if found.At? {
        HitElement(grid, ordered, lk, equal, failures, takenInRight, last, found.pos, missed);
        takenInRight := takenInRight + {if ordered then lk else found.pos};
        last := found.pos;
      } else {
        MissedElement(grid, width, ordered, lk, equal, failures, takenInRight, last, missed);
        equal, failures := false, failures + missed;
      }
    }
    CompleteRun(grid, width, ordered, curr.NoExtra(), equal, failures, takenInRight, last);
    if curr.NoExtra() && exists k :: 0 <= k < width && k !in takenInRight {
      return Done(false, failures + 1);
    }
    return Done(equal, failures);
  }
}

/**
 Every run of the comparer. Go ranges over a map in an order of its own at each visit: over
 every expected object, and over every control object it decodes. `May` holds of the
 outcomes the orders can lead to; the lemmas say when there is only one, and which.
 */
module Runs {
  import opened Wrappers
  import opened JsonValues
  import opened MapOrders
  import opened Control
  import opened Matching
  import opened Comparison
  import opened Choices

  // ---------- the outcomes a run may have ----------

  const ALL := {Malformed, YES, Verdict(false)}

  lemma InAll(o: Outcome)
    ensures o in ALL
  {
  }

  ghost predicate MayDecode(fields: map<string, Json>, control: Option<Context>) {
    exists order :: IsOrder(order, fields.Keys) && control == Fill(fields, order)
  }

  /** The control used for a key when its object is decoded in some order. */
  ghost predicate MayControl(l: Json, left: set<string>, ck: string, control: Option<Context>)
    requires l.Obj? && ck in l.fields && left <= l.fields.Keys
  {
    var key := if IsControlKey(ck) then ck else ControlKey(ck);
    if (IsControlKey(ck) || key in left) && l.fields[key].Obj? then MayDecode(l.fields[key].fields, control)
    else control == if IsControlKey(ck) then None else Some(EMPTY)
  }

  ghost predicate MayField(lib: Library, l: Json, base: string, actual: Json, ok: bool, control: Context, o: Outcome)
    requires l.Obj?
    decreases l, 0
  {
    var given := base in l.fields;
    var c := if given then control.MustExist() else control;
    if !KeyChecks(lib, actual, ok, c) then o == Verdict(false)
    else if given then May(lib, l.fields[base], actual, c, o)
    else o == YES
  }

  ghost predicate MayOutcome(lib: Library, l: Json, r: Json, w: Walk, ck: string, o: Outcome)
    requires l.Obj? && r.Obj? && w.Walking? && Within(w, l) && ck in l.fields
    decreases l, 1
  {
    exists control :: MayControl(l, w.left, ck, control) &&
      match control
      case None => o == Malformed
      case Some(c) => MayField(lib, l, BaseOf(ck), ActualRead(r, w, BaseOf(ck)), FoundRead(r, w, BaseOf(ck)), c, o)
  }

  /** One iteration of the loop may take the walk from w to w'. */
  ghost predicate MayVisit(lib: Library, l: Json, r: Json, w: Walk, ck: string, w': Walk)
    requires l.Obj? && r.Obj? && Within(w, l) && ck in l.fields
    decreases l, 2
  {
    if Skipped(w, ck) then w' == w
    else exists o :: MayOutcome(lib, l, r, w, ck, o) && w' == Moved(l, r, w, ck, o)
  }

  ghost predicate MayWalk(lib: Library, l: Json, r: Json, order: seq<string>, w: Walk)
    requires l.Obj? && r.Obj? && forall k :: k in order ==> k in l.fields
    decreases l, 3, |order|
  {
    if order == [] then w == StartOf(l)
    else
      var n := |order| - 1;
      exists before :: Within(before, l) && MayWalk(lib, l, r, order[..n], before) && MayVisit(lib, l, r, before, order[n], w)
  }

  ghost predicate MayObject(lib: Library, l: Json, r: Json, noExtra: bool, o: Outcome)
    requires l.Obj? && r.Obj?
    decreases l, 4
  {
    exists order, w :: IsOrder(order, l.fields.Keys) && MayWalk(lib, l, r, order, w) && o == Ending(r, w, noExtra)
  }

  ghost predicate MayRow(lib: Library, l: Json, r: Json, c: Context, row: seq<Outcome>)
    requires r.Arr?
    decreases l, 6
  {
    |row| == |r.elems| && forall j :: 0 <= j < |row| ==> May(lib, l, r.elems[j], c, row[j])
  }

  ghost predicate MayRows(lib: Library, l: Json, r: Json, c: Context, m: Matrix)
    requires l.Arr? && r.Arr?
    decreases l, 3
  {
    |m| <= |l.elems| && forall i :: 0 <= i < |m| ==> MayRow(lib, l.elems[i], r, c, m[i])
  }

  ghost predicate MayArray(lib: Library, l: Json, r: Json, curr: Context, next: Context, o: Outcome)
    requires l.Arr? && r.Arr?
    decreases l, 4
  {
    exists m :: MayRows(lib, l, r, next, m) && |m| == |l.elems|
                && o == ArrayVerdict(m, |r.elems|, curr.OrderMatters(), curr.NoExtra())
  }

  ghost predicate May(lib: Library, l: Json, r: Json, c: Context, o: Outcome)
    decreases l, 5
  {
    if l.Arr? && r.Arr? then MayArray(lib, l, r, c, Next(c), o)
    else if l.Obj? && r.Obj? then MayObject(lib, l, r, c.NoExtra(), o)
    else o == Compare(lib, l, r, c)
  }

  // ---------- some run always exists ----------

  lemma {:induction false} SomeOutcome(lib: Library, l: Json, r: Json, c: Context) returns (o: Outcome)
    ensures May(lib, l, r, c, o)
    decreases l, 3
  {
    if l.Arr? && r.Arr? {
      var m := SomeMatrix(lib, l, r, Next(c), []);
      o := ArrayVerdict(m, |r.elems|, c.OrderMatters(), c.NoExtra());
    } else if l.Obj? && r.Obj? {
      var order := OrderExists(l.fields.Keys);
      var w := SomeWalk(lib, l, r, [], order, StartOf(l));
      assert [] + order == order;
      o := Ending(r, w, c.NoExtra());
    } else {
      o := Compare(lib, l, r, c);
    }
  }

  lemma {:induction false} SomeRow(lib: Library, l: Json, r: Json, c: Context, n: nat) returns (row: seq<Outcome>)
    requires r.Arr? && n <= |r.elems|
    ensures |row| == n && forall j :: 0 <= j < n ==> May(lib, l, r.elems[j], c, row[j])
    decreases l, 4, n
  {
    if n == 0 {
      row := [];
    } else {
      var front := SomeRow(lib, l, r, c, n - 1);
      var o := SomeOutcome(lib, l, r.elems[n - 1], c);
      row := front + [o];
      assert row[n - 1] == o && forall j :: 0 <= j < n - 1 ==> row[j] == front[j];
    }
  }

  /** Rows for the expected elements that are not covered yet. */
  lemma {:induction false} SomeMatrix(lib: Library, l: Json, r: Json, c: Context, m: Matrix) returns (full: Matrix)
    requires l.Arr? && r.Arr? && MayRows(lib, l, r, c, m)
    ensures MayRows(lib, l, r, c, full) && |full| == |l.elems| && m <= full
    decreases l, 2, |l.elems| - |m|
  {
    if |m| == |l.elems| {
      full := m;
    } else {
      var row := SomeRow(lib, l.elems[|m|], r, c, |r.elems|);
      assert MayRow(lib, l.elems[|m|], r, c, row);
      full := SomeMatrix(lib, l, r, c, m + [row]);
    }
  }

  lemma SomeControl(l: Json, left: set<string>, ck: string) returns (control: Option<Context>)
    requires l.Obj? && ck in l.fields && left <= l.fields.Keys
    ensures MayControl(l, left, ck, control)
  {
    var key := if IsControlKey(ck) then ck else ControlKey(ck);
    if (IsControlKey(ck) || key in left) && l.fields[key].Obj? {
      var order := OrderExists(l.fields[key].fields.Keys);
      control := Fill(l.fields[key].fields, order);
    } else {
      control := if IsControlKey(ck) then None else Some(EMPTY);
    }
  }

  lemma {:induction false} SomeVisit(lib: Library, l: Json, r: Json, w: Walk, ck: string) returns (w': Walk)
    requires l.Obj? && r.Obj? && Within(w, l) && ck in l.fields
    ensures MayVisit(lib, l, r, w, ck, w') && Within(w', l)
    decreases l, 0
  {
    if Skipped(w, ck) {
      w' := w;
    } else {
      var control := SomeControl(l, w.left, ck);
      var base := BaseOf(ck);
      var o := Malformed;
      if control.Some? {
        var c := if base in l.fields then control.value.MustExist() else control.value;
        if !KeyChecks(lib, ActualRead(r, w, base), FoundRead(r, w, base), c) {
          o := Verdict(false);
        } else if base in l.fields {
          o := SomeOutcome(lib, l.fields[base], ActualRead(r, w, base), c);
        } else {
          o := YES;
        }
        assert MayField(lib, l, base, ActualRead(r, w, base), FoundRead(r, w, base), control.value, o);
      }
      assert MayOutcome(lib, l, r, w, ck, o);
      w' := Moved(l, r, w, ck, o);
    }
  }

  lemma MayWalkStep(lib: Library, l: Json, r: Json, order: seq<string>, ck: string, w: Walk, w': Walk)
    requires l.Obj? && r.Obj? && (forall k :: k in order ==> k in l.fields) && ck in l.fields
    requires Within(w, l) && MayWalk(lib, l, r, order, w) && MayVisit(lib, l, r, w, ck, w')
    ensures MayWalk(lib, l, r, order + [ck], w')
  {
    assert (order + [ck])[..|order|] == order;
  }

  /** A walk over `done` can go on over `rest`. */
  lemma {:induction false} SomeWalk(lib: Library, l: Json, r: Json, done: seq<string>, rest: seq<string>, w: Walk)
    returns (w': Walk)
    requires l.Obj? && r.Obj? && (forall k :: k in done || k in rest ==> k in l.fields)
    requires Within(w, l) && MayWalk(lib, l, r, done, w)
    ensures MayWalk(lib, l, r, done + rest, w')
    ensures w.Aborted? ==> w'.Aborted?
    ensures w.Walking? && !w.equal ==> w'.Aborted? || !w'.equal
    decreases l, 1, |rest|
  {
    if rest == [] {
      assert done + rest == done;
      w' := w;
    } else {
      var next := SomeVisit(lib, l, r, w, rest[0]);
      MayWalkStep(lib, l, r, done, rest[0], w, next);
      assert (done + [rest[0]]) + rest[1..] == done + rest;
      w' := SomeWalk(lib, l, r, done + [rest[0]], rest[1..], next);
    }
  }

  lemma WalkOf(lib: Library, l: Json, r: Json, noExtra: bool, o: Outcome) returns (order: seq<string>, w: Walk)
    requires l.Obj? && r.Obj? && MayObject(lib, l, r, noExtra, o)
    ensures IsOrder(order, l.fields.Keys) && MayWalk(lib, l, r, order, w) && o == Ending(r, w, noExtra)
  {
    order, w :| IsOrder(order, l.fields.Keys) && MayWalk(lib, l, r, order, w) && o == Ending(r, w, noExtra);
  }

  // ---------- arrays as grids of offers ----------

  /** The offer lists the outcomes that comparing `left` with each actual element may have. */
  ghost predicate Offers(offer: Offer, lib: Library, left: Json, right: Json, next: Context)
    requires right.Arr?
  {
    && |offer| == |right.elems| && Open(offer)
    && forall j, o :: 0 <= j < |offer| ==> (o in offer[j] <==> May(lib, left, right.elems[j], next, o))
  }

  ghost predicate Spans(grid: Grid, lib: Library, left: Json, right: Json, next: Context)
    requires left.Arr? && right.Arr?
  {
    && |grid| == |left.elems| && OpenGrid(grid, |right.elems|)
    && forall i :: 0 <= i < |grid| ==> Offers(grid[i], lib, left.elems[i], right, next)
  }

  lemma OfferOf(lib: Library, left: Json, right: Json, next: Context) returns (offer: Offer)
    requires right.Arr?
    ensures Offers(offer, lib, left, right, next)
  {
    offer := seq(|right.elems|, j requires 0 <= j < |right.elems| =>
      set o | o in ALL && May(lib, left, right.elems[j], next, o));
    forall j | 0 <= j < |offer| ensures offer[j] != {} {
      var o := SomeOutcome(lib, left, right.elems[j], next);
      assert o in offer[j];
    }
  }

  lemma {:induction false} GridOf(lib: Library, left: Json, right: Json, next: Context, n: nat) returns (grid: Grid)
    requires left.Arr? && right.Arr? && n <= |left.elems|
    ensures |grid| == n && OpenGrid(grid, |right.elems|)
    ensures forall i :: 0 <= i < n ==> Offers(grid[i], lib, left.elems[i], right, next)
  {
    if n == 0 {
      grid := [];
    } else {
      var front := GridOf(lib, left, right, next, n - 1);
      var offer := OfferOf(lib, left.elems[n - 1], right, next);
      grid := front + [offer];
    }
  }

  lemma RowsIffDrawn(lib: Library, left: Json, right: Json, next: Context, grid: Grid, m: Matrix)
    requires left.Arr? && right.Arr? && Spans(grid, lib, left, right, next) && |m| == |grid|
    ensures MayRows(lib, left, right, next, m) <==> DrawnRows(m, grid)
  {
    forall i | 0 <= i < |m| ensures MayRow(lib, left.elems[i], right, next, m[i]) <==> Drawn(m[i], grid[i]) {
      assert Offers(grid[i], lib, left.elems[i], right, next);
    }
  }

  /** An array comparison may end as the matrices drawn from its grid do. */
  lemma MayEndIffMayArray(lib: Library, left: Json, right: Json, curr: Context, next: Context, grid: Grid, o: Outcome)
    requires left.Arr? && right.Arr? && Spans(grid, lib, left, right, next)
    ensures MayEnd(grid, |right.elems|, curr.OrderMatters(), curr.NoExtra(), o) <==> MayArray(lib, left, right, curr, next, o)
  {
    forall m: Matrix | |m| == |grid| ensures MayRows(lib, left, right, next, m) <==> DrawnRows(m, grid) {
      RowsIffDrawn(lib, left, right, next, grid, m);
    }
  }
}

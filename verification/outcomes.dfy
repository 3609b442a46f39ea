/**
 What all runs together can end with, without any order: the outcomes of an expected value
 whose keys are clean at every level, and when there is only one.
 */
module Outcomes {
  import opened Wrappers
  import opened JsonValues
  import opened MapOrders
  import opened Control
  import opened Matching
  import opened Comparison
  import opened Choices
  import opened Runs

  ghost predicate CleanWithin(l: Json) {
    match l
    case Arr(elems) => forall i :: 0 <= i < |elems| ==> CleanWithin(elems[i])
    case Obj(fields) => CleanObject(fields) && forall k :: k in fields && !IsControlKey(k) ==> CleanWithin(fields[k])
    case _ => true
  }

  // ---------- the outcomes, order-free ----------

  /** The contexts a control object can be decoded to, None if it is invalid. */
  ghost function Readings(fields: map<string, Json>): set<Option<Context>> {
    if !AllValid(fields) then {None}
    else if Contradictory(fields) then {Some(MeaningOf(fields)), Some(Unnumbered(MeaningOf(fields)))}
    else {Some(MeaningOf(fields))}
  }

  ghost function CheckedOutcomes(lib: Library, l: Json, base: string, actual: Json, ok: bool, control: Context): set<Outcome>
    requires l.Obj?
    decreases l, 0
  {
    var given := base in l.fields;
    var c := if given then control.MustExist() else control;
    if !KeyChecks(lib, actual, ok, c) then {Verdict(false)}
    else if given then OutcomesOf(lib, l.fields[base], actual, c)
    else {YES}
  }

  /** The controls a base key may be compared under. */
  ghost function ReadingsOf(l: Json, base: string): set<Option<Context>>
    requires l.Obj?
  {
    if ControlKey(base) !in l.fields then {Some(EMPTY)}
    else if l.fields[ControlKey(base)].Obj? then Readings(l.fields[ControlKey(base)].fields)
    else {None}
  }

  ghost predicate OutcomeUnder(lib: Library, l: Json, r: Json, base: string, control: Option<Context>, o: Outcome)
    requires l.Obj? && r.Obj?
    decreases l, 1
  {
    match control
    case None => o == Malformed
    case Some(c) => o in CheckedOutcomes(lib, l, base, Lookup(r.fields, base), base in r.fields, c)
  }

  /** The outcomes of one base key. */
  ghost function FieldOutcomes(lib: Library, l: Json, r: Json, base: string): set<Outcome>
    requires l.Obj? && r.Obj?
    decreases l, 2
  {
    set o | o in ALL && exists control :: control in ReadingsOf(l, base) && OutcomeUnder(lib, l, r, base, control, o)
  }

  /** One outcome for each base key. */
  ghost predicate Draws(lib: Library, l: Json, r: Json, outcomes: map<string, Outcome>)
    requires l.Obj? && r.Obj?
    decreases l, 3
  {
    && outcomes.Keys == Bases(l.fields.Keys)
    && forall b :: b in outcomes ==> outcomes[b] in FieldOutcomes(lib, l, r, b)
  }

  ghost function GridWithin(lib: Library, l: Json, r: Json, c: Context): (grid: Grid)
    requires l.Arr? && r.Arr?
    decreases l, 2
  {
    seq(|l.elems|, i requires 0 <= i < |l.elems| =>
      seq(|r.elems|, j requires 0 <= j < |r.elems| => OutcomesOf(lib, l.elems[i], r.elems[j], c)))
  }

  ghost function OutcomesOf(lib: Library, l: Json, r: Json, c: Context): set<Outcome>
    decreases l, 4
  {
    if l.Arr? && r.Arr? then
      set o | o in ALL && MayEnd(GridWithin(lib, l, r, Next(c)), |r.elems|, c.OrderMatters(), c.NoExtra(), o)
    else if l.Obj? && r.Obj? then
      set o | o in ALL && exists outcomes :: Draws(lib, l, r, outcomes) && o == Combined(r, outcomes, c.NoExtra())
    else {Compare(lib, l, r, c)}
  }

  // ---------- they are the outcomes of the runs ----------

  lemma DecodeIff(fields: map<string, Json>, control: Option<Context>)
    ensures MayDecode(fields, control) <==> control in Readings(fields)
  {
    if MayDecode(fields, control) {
      var order :| IsOrder(order, fields.Keys) && control == Fill(fields, order);
      FillOrderIndependent(fields, order);
      if AllValid(fields) {
        FillIsEither(fields, order);
      }
    }
    if !AllValid(fields) {
      var order := OrderExists(fields.Keys);
      FillOrderIndependent(fields, order);
    } else {
      var order := OrderOfMeaning(fields);
      if Contradictory(fields) {
        var off := OrderSwitchingOff(fields);
      }
    }
  }

  /** Unless its base is doomed, a visited key is compared under the controls of its base. */
  lemma ControlIff(l: Json, w: Walk, seen: set<string>, ck: string, control: Option<Context>)
    requires l.Obj? && CleanObject(l.fields) && ck in l.fields
    requires w.Walking? && WalkKeys(l, w, seen) && !Skipped(w, ck) && !DoomedKey(l, ck)
    ensures MayControl(l, w.left, ck, control) <==> control in ReadingsOf(l, BaseOf(ck))
  {
    CleanPair(l.fields, ck);
    FreshBase(l, w, seen, ck);
    var key := ControlKey(BaseOf(ck));
    if key in l.fields && l.fields[key].Obj? {
      DecodeIff(l.fields[key].fields, control);
    }
  }

  lemma FieldIff(lib: Library, l: Json, base: string, actual: Json, ok: bool, c: Context, o: Outcome)
    requires l.Obj? && CleanWithin(l) && !IsControlKey(base)
    ensures MayField(lib, l, base, actual, ok, c, o) <==> o in CheckedOutcomes(lib, l, base, actual, ok, c)
    decreases l, 0
  {
    if base in l.fields {
      OutcomesIff(lib, l.fields[base], actual, c.MustExist(), o);
    }
  }

  lemma VisitIff(lib: Library, l: Json, r: Json, w: Walk, seen: set<string>, ck: string, o: Outcome)
    requires l.Obj? && r.Obj? && CleanWithin(l) && ck in l.fields
    requires w.Walking? && WalkKeys(l, w, seen) && !Skipped(w, ck) && !DoomedKey(l, ck)
    ensures MayOutcome(lib, l, r, w, ck, o) <==> o in FieldOutcomes(lib, l, r, BaseOf(ck))
    decreases l, 1
  {
    var base := BaseOf(ck);
    CleanPair(l.fields, ck);
    FreshBase(l, w, seen, ck);
    forall control ensures MayControl(l, w.left, ck, control) <==> control in ReadingsOf(l, base) {
      ControlIff(l, w, seen, ck, control);
    }
    if base !in w.taken {
      forall c ensures
        MayField(lib, l, base, ActualRead(r, w, base), FoundRead(r, w, base), c, o) <==>
        o in CheckedOutcomes(lib, l, base, Lookup(r.fields, base), base in r.fields, c)
      {
        FieldIff(lib, l, base, Lookup(r.fields, base), base in r.fields, c, o);
      }
    }
  }

  lemma DoomedIsMalformed(lib: Library, l: Json, r: Json, ck: string)
    requires l.Obj? && r.Obj? && CleanObject(l.fields) && ck in l.fields && DoomedKey(l, ck)
    ensures FieldOutcomes(lib, l, r, BaseOf(ck)) == {Malformed}
  {
    CleanPair(l.fields, ck);
    assert None in ReadingsOf(l, BaseOf(ck));
  }

  /** An invalid control cannot be read. */
  lemma UnreadableControl(lib: Library, l: Json, r: Json, w: Walk, ck: string, o: Outcome)
    requires l.Obj? && r.Obj? && w.Walking? && Within(w, l) && ck in l.fields && MayOutcome(lib, l, r, w, ck, o)
    requires VisitedControl(l, w.left, ck).0.None?
    ensures o == Malformed
  {
    var key := if IsControlKey(ck) then ck else ControlKey(ck);
    if l.fields[key].Obj? {
      forall control ensures MayDecode(l.fields[key].fields, control) <==> control in Readings(l.fields[key].fields) {
        DecodeIff(l.fields[key].fields, control);
      }
    }
  }

  lemma FieldNotEmpty(lib: Library, l: Json, r: Json, base: string) returns (o: Outcome)
    requires l.Obj? && r.Obj? && CleanWithin(l) && !IsControlKey(base)
    ensures o in FieldOutcomes(lib, l, r, base)
    decreases l, 1
  {
    var control :| control in ReadingsOf(l, base);
    o := Malformed;
    if control.Some? {
      var c, actual, ok := control.value, Lookup(r.fields, base), base in r.fields;
      if base !in l.fields {
        o := if KeyChecks(lib, actual, ok, c) then YES else Verdict(false);
      } else if !KeyChecks(lib, actual, ok, c.MustExist()) {
        o := Verdict(false);
      } else {
        o := SomeOutcome(lib, l.fields[base], actual, c.MustExist());
      }
      FieldIff(lib, l, base, actual, ok, c, o);
      assert o in ALL;
    }
  }

  lemma SomeDraws(lib: Library, l: Json, r: Json) returns (outcomes: map<string, Outcome>)
    requires l.Obj? && r.Obj? && CleanWithin(l)
    ensures Draws(lib, l, r, outcomes)
    decreases l, 2
  {
    forall b | b in Bases(l.fields.Keys) ensures exists o :: o in FieldOutcomes(lib, l, r, b) {
      var k :| k in l.fields && BaseOf(k) == b;
      BaseIsNoControl(k);
      var o := FieldNotEmpty(lib, l, r, b);
    }
    outcomes := map b | b in Bases(l.fields.Keys) :: var o :| o in FieldOutcomes(lib, l, r, b); o;
  }

  /** The outcome of a base that is not taken yet can be drawn anew. */
  lemma Redraw(lib: Library, l: Json, r: Json, outcomes: map<string, Outcome>, w: Walk, seen: set<string>, base: string, o: Outcome)
    requires l.Obj? && r.Obj? && Draws(lib, l, r, outcomes) && base in Bases(l.fields.Keys)
    requires o in FieldOutcomes(lib, l, r, base)
    requires w.Walking? && Tracks(l, outcomes, w, seen) && (base in w.taken ==> outcomes[base] == o)
    ensures Draws(lib, l, r, outcomes[base := o]) && Tracks(l, outcomes[base := o], w, seen)
  {
    RedrawTells(l, outcomes, w, base, o);
  }

  lemma RedrawTells(l: Json, outcomes: map<string, Outcome>, w: Walk, base: string, o: Outcome)
    requires l.Obj? && w.Walking? && Tells(l, outcomes, w) && base in outcomes && (base in w.taken ==> outcomes[base] == o)
    ensures Tells(l, outcomes[base := o], w)
  {
    var redrawn := outcomes[base := o];
    assert forall b :: b in w.taken ==> redrawn[b] == outcomes[b];
  }

  lemma WalkBefore(lib: Library, l: Json, r: Json, order: seq<string>, w: Walk) returns (before: Walk)
    requires l.Obj? && r.Obj? && (forall k :: k in order ==> k in l.fields) && order != [] && MayWalk(lib, l, r, order, w)
    ensures Within(before, l) && MayWalk(lib, l, r, order[..|order| - 1], before)
    ensures MayVisit(lib, l, r, before, order[|order| - 1], w)
  {
    before :| Within(before, l) && MayWalk(lib, l, r, order[..|order| - 1], before)
              && MayVisit(lib, l, r, before, order[|order| - 1], w);
  }

  /** Every walk is accounted for by one outcome of each base. */
  lemma {:induction false} DrawsOfWalk(lib: Library, l: Json, r: Json, order: seq<string>, w: Walk)
    returns (outcomes: map<string, Outcome>)
    requires l.Obj? && r.Obj? && CleanWithin(l) && Listing(order, l.fields.Keys)
    requires MayWalk(lib, l, r, order, w)
    ensures Draws(lib, l, r, outcomes) && Tracks(l, outcomes, w, Keys(order))
    decreases l, 3, |order|
  {
    if order == [] {
      outcomes := SomeDraws(lib, l, r);
      StartTracks(l, outcomes, Keys(order));
    } else {
      var n := |order| - 1;
      ListingFront(order, l.fields.Keys);
      var before := WalkBefore(lib, l, r, order, w);
      var front := DrawsOfWalk(lib, l, r, order[..n], before);
      outcomes := DrawsOfNext(lib, l, r, front, before, Keys(order[..n]), Keys(order), order[n], w);
    }
  }

  lemma DrawsOfNext(lib: Library, l: Json, r: Json, outcomes: map<string, Outcome>, w: Walk,
                    seen: set<string>, seen': set<string>, ck: string, w': Walk)
    returns (redrawn: map<string, Outcome>)
    requires l.Obj? && r.Obj? && CleanWithin(l) && ck in l.fields && ck !in seen && seen <= l.fields.Keys
    requires Draws(lib, l, r, outcomes) && Within(w, l) && Tracks(l, outcomes, w, seen) && seen' == seen + {ck}
    requires MayVisit(lib, l, r, w, ck, w')
    ensures Draws(lib, l, r, redrawn) && Tracks(l, redrawn, w', seen')
    decreases l, 3, 0
  {
    if Skipped(w, ck) {
      redrawn := outcomes;
      SkipTracks(l, outcomes, w, seen, ck);
    } else {
      var o :| MayOutcome(lib, l, r, w, ck, o) && w' == Moved(l, r, w, ck, o);
      redrawn := DrawsOfVisit(lib, l, r, outcomes, w, seen, ck, o);
    }
  }

  lemma DrawsOfVisit(lib: Library, l: Json, r: Json, outcomes: map<string, Outcome>, w: Walk, seen: set<string>, ck: string, o: Outcome)
    returns (redrawn: map<string, Outcome>)
    requires l.Obj? && r.Obj? && CleanWithin(l) && ck in l.fields && ck !in seen && seen <= l.fields.Keys
    requires Draws(lib, l, r, outcomes) && w.Walking? && Tracks(l, outcomes, w, seen) && !Skipped(w, ck)
    requires MayOutcome(lib, l, r, w, ck, o)
    ensures Draws(lib, l, r, redrawn) && Tracks(l, redrawn, Moved(l, r, w, ck, o), seen + {ck})
    decreases l, 2
  {
    var base := BaseOf(ck);
    assert base in Bases(l.fields.Keys);
    if VisitedControl(l, w.left, ck).0.None? {
      UnreadableControl(lib, l, r, w, ck, o);
    }
    redrawn := outcomes;
    if DoomedKey(l, ck) {
      DoomedIsMalformed(lib, l, r, ck);
    } else {
      VisitIff(lib, l, r, w, seen, ck, o);
      TakenIsMalformed(lib, l, r, w, seen, ck);
      Redraw(lib, l, r, outcomes, w, seen, base, o);
      redrawn := outcomes[base := o];
    }
    VisitTracks(l, r, redrawn, w, seen, ck, o);
  }

  /** A key visited although its base is taken ends the comparison. */
  lemma TakenIsMalformed(lib: Library, l: Json, r: Json, w: Walk, seen: set<string>, ck: string)
    requires l.Obj? && r.Obj? && CleanObject(l.fields) && ck in l.fields
    requires w.Walking? && WalkKeys(l, w, seen) && !Skipped(w, ck)
    ensures BaseOf(ck) in w.taken ==> FieldOutcomes(lib, l, r, BaseOf(ck)) == {Malformed}
  {
    CleanPair(l.fields, ck);
    FreshBase(l, w, seen, ck);
    if BaseOf(ck) in w.taken {
      assert None in ReadingsOf(l, BaseOf(ck));
    }
  }

  lemma StartTracks(l: Json, outcomes: map<string, Outcome>, seen: set<string>)
    requires l.Obj? && seen == {}
    ensures Tracks(l, outcomes, StartOf(l), seen)
  {
    assert Bases(seen) == {};
  }

  lemma WalkOn(lib: Library, l: Json, r: Json, order: seq<string>, before: Walk, w: Walk)
    requires l.Obj? && r.Obj? && (forall k :: k in order ==> k in l.fields) && order != [] && Within(before, l)
    requires MayWalk(lib, l, r, order[..|order| - 1], before) && MayVisit(lib, l, r, before, order[|order| - 1], w)
    ensures MayWalk(lib, l, r, order, w)
  {
  }

  /** One outcome of each base can be met in every order. */
  lemma {:induction false} WalkOfDraws(lib: Library, l: Json, r: Json, order: seq<string>, outcomes: map<string, Outcome>)
    returns (w: Walk)
    requires l.Obj? && r.Obj? && CleanWithin(l) && Listing(order, l.fields.Keys)
    requires Draws(lib, l, r, outcomes)
    ensures Within(w, l) && MayWalk(lib, l, r, order, w) && Tracks(l, outcomes, w, Keys(order))
    decreases l, 3, |order|
  {
    if order == [] {
      w := StartOf(l);
      StartTracks(l, outcomes, Keys(order));
    } else {
      ListingFront(order, l.fields.Keys);
      var before := WalkOfDraws(lib, l, r, order[..|order| - 1], outcomes);
      w := NextOfDraws(lib, l, r, order, outcomes, before);
    }
  }

  lemma NextOfDraws(lib: Library, l: Json, r: Json, order: seq<string>, outcomes: map<string, Outcome>, before: Walk)
    returns (w: Walk)
    requires l.Obj? && r.Obj? && CleanWithin(l) && Listing(order, l.fields.Keys) && order != []
    requires Draws(lib, l, r, outcomes) && Within(before, l) && MayWalk(lib, l, r, order[..|order| - 1], before)
    requires Tracks(l, outcomes, before, Keys(order[..|order| - 1]))
    ensures Within(w, l) && MayWalk(lib, l, r, order, w) && Tracks(l, outcomes, w, Keys(order))
    decreases l, 3, 0
  {
    var n := |order| - 1;
    var front, ck := order[..n], order[n];
    ListingFront(order, l.fields.Keys);
    w := VisitOfDraws(lib, l, r, outcomes, before, Keys(front), Keys(order), ck);
    WalkOn(lib, l, r, order, before, w);
  }

  lemma VisitOfDraws(lib: Library, l: Json, r: Json, outcomes: map<string, Outcome>, w: Walk,
                     seen: set<string>, seen': set<string>, ck: string)
    returns (w': Walk)
    requires l.Obj? && r.Obj? && CleanWithin(l) && ck in l.fields && ck !in seen && seen <= l.fields.Keys
    requires Draws(lib, l, r, outcomes) && Within(w, l) && Tracks(l, outcomes, w, seen)
    requires seen' == seen + {ck}
    ensures Within(w', l) && MayVisit(lib, l, r, w, ck, w') && Tracks(l, outcomes, w', seen')
    decreases l, 2
  {
    if Skipped(w, ck) {
      w' := w;
      SkipTracks(l, outcomes, w, seen, ck);
    } else {
      var base := BaseOf(ck);
      assert base in Bases(l.fields.Keys);
      var o := outcomes[base];
      if DoomedKey(l, ck) {
        DoomedIsMalformed(lib, l, r, ck);
        var some := SomeVisit(lib, l, r, w, ck);
        o :| MayOutcome(lib, l, r, w, ck, o) && some == Moved(l, r, w, ck, o);
      } else {
        VisitIff(lib, l, r, w, seen, ck, o);
      }
      if VisitedControl(l, w.left, ck).0.None? {
        UnreadableControl(lib, l, r, w, ck, o);
      }
      w' := Moved(l, r, w, ck, o);
      VisitTracks(l, r, outcomes, w, seen, ck, o);
    }
  }

  lemma DrawsOfObject(lib: Library, l: Json, r: Json, noExtra: bool, o: Outcome) returns (outcomes: map<string, Outcome>)
    requires l.Obj? && r.Obj? && CleanWithin(l) && MayObject(lib, l, r, noExtra, o)
    ensures Draws(lib, l, r, outcomes) && o == Combined(r, outcomes, noExtra)
    decreases l, 4
  {
    var order, w := WalkOf(lib, l, r, noExtra, o);
    outcomes := DrawsOfWalk(lib, l, r, order, w);
    assert Keys(order) == l.fields.Keys;
    TracksEnd(l, r, outcomes, w, noExtra);
  }

  lemma ObjectOfDraws(lib: Library, l: Json, r: Json, noExtra: bool, outcomes: map<string, Outcome>)
    requires l.Obj? && r.Obj? && CleanWithin(l) && Draws(lib, l, r, outcomes)
    ensures MayObject(lib, l, r, noExtra, Combined(r, outcomes, noExtra))
    decreases l, 4
  {
    var order := OrderExists(l.fields.Keys);
    var w := WalkOfDraws(lib, l, r, order, outcomes);
    assert Keys(order) == l.fields.Keys;
    TracksEnd(l, r, outcomes, w, noExtra);
  }

  lemma ObjectIff(lib: Library, l: Json, r: Json, noExtra: bool, o: Outcome)
    requires l.Obj? && r.Obj? && CleanWithin(l)
    ensures MayObject(lib, l, r, noExtra, o) <==>
      exists outcomes :: Draws(lib, l, r, outcomes) && o == Combined(r, outcomes, noExtra)
    decreases l, 5
  {
    if MayObject(lib, l, r, noExtra, o) {
      var outcomes := DrawsOfObject(lib, l, r, noExtra, o);
    }
    if outcomes :| Draws(lib, l, r, outcomes) && o == Combined(r, outcomes, noExtra) {
      ObjectOfDraws(lib, l, r, noExtra, outcomes);
    }
  }

  lemma GridSpans(lib: Library, l: Json, r: Json, c: Context)
    requires l.Arr? && r.Arr? && CleanWithin(l)
    ensures Spans(GridWithin(lib, l, r, c), lib, l, r, c)
    decreases l, 4
  {
    var grid := GridWithin(lib, l, r, c);
    forall i | 0 <= i < |grid| ensures Offers(grid[i], lib, l.elems[i], r, c) {
      forall j, o | 0 <= j < |r.elems| ensures o in grid[i][j] <==> May(lib, l.elems[i], r.elems[j], c, o) {
        OutcomesIff(lib, l.elems[i], r.elems[j], c, o);
      }
      forall j | 0 <= j < |r.elems| ensures grid[i][j] != {} {
        var o := SomeOutcome(lib, l.elems[i], r.elems[j], c);
        OutcomesIff(lib, l.elems[i], r.elems[j], c, o);
      }
    }
  }

  /** With clean keys at every level, the runs can end exactly as the order-free outcomes say. */
  lemma {:induction false} OutcomesIff(lib: Library, l: Json, r: Json, c: Context, o: Outcome)
    requires CleanWithin(l)
    ensures May(lib, l, r, c, o) <==> o in OutcomesOf(lib, l, r, c)
    decreases l, 6
  {
    assert o in ALL;
    if l.Arr? && r.Arr? {
      GridSpans(lib, l, r, Next(c));
      MayEndIffMayArray(lib, l, r, c, Next(c), GridWithin(lib, l, r, Next(c)), o);
    } else if l.Obj? && r.Obj? {
      ObjectIff(lib, l, r, c.NoExtra(), o);
    }
  }
}

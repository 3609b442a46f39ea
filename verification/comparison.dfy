/**
 What it means for an actual JSON value to match an expected one, free of loops and of
 map orders, and the object walk of objectComparison over an explicit visiting order.
 */
module Comparison {
  import opened Wrappers
  import opened JsonValues
  import opened MapOrders
  import opened Control
  import opened Matching

  function Lookup(fields: map<string, Json>, key: string): Json {
    if key in fields then fields[key] else Null
  }

  ghost function Bases(keys: set<string>): set<string> {
    set k | k in keys :: BaseOf(k)
  }

  /** The decoded control of a base key, in its order-free meaning; None when it is malformed. */
  ghost function ControlOf(left: map<string, Json>, base: string): Option<Context> {
    if ControlKey(base) !in left then Some(EMPTY)
    else
      match left[ControlKey(base)]
      case Obj(fields) => if AllValid(fields) then Some(MeaningOf(fields)) else None
      case _ => None
  }

  ghost function Compare(lib: Library, l: Json, r: Json, c: Context): Outcome
    decreases l, 2
  {
    if l.Null? && r.Null? then YES
    else if r.Null? then Verdict(false)
    else
      match l
      case Null => Verdict(false)
      case Bool(_) | Num(_) | Str(_) => Verdict(l == r)
      case Arr(elems) =>
        if r.Arr? then ArrayVerdict(Pairs(lib, l, r, Next(c)), |r.elems|, c.OrderMatters(), c.NoExtra())
        else Verdict(false)
      case Obj(_) => if r.Obj? then ObjectVerdict(lib, l, r, c.NoExtra()) else Verdict(false)
  }

  /** Every expected element compared with every actual element. */
  ghost function Pairs(lib: Library, l: Json, r: Json, c: Context): (m: Matrix)
    requires l.Arr? && r.Arr?
    ensures |m| == |l.elems| && Shaped(m, |r.elems|)
    ensures forall i, j :: 0 <= i < |l.elems| && 0 <= j < |r.elems| ==>
      m[i][j] == Compare(lib, l.elems[i], r.elems[j], c)
    decreases l, 1
  {
    seq(|l.elems|, i requires 0 <= i < |l.elems| =>
      seq(|r.elems|, j requires 0 <= j < |r.elems| => Compare(lib, l.elems[i], r.elems[j], c)))
  }

  /** The outcome for one base key of an expected object. */
  ghost function Field(lib: Library, l: Json, r: Json, base: string): Outcome
    requires l.Obj? && r.Obj?
    decreases l, 0
  {
    match ControlOf(l.fields, base)
    case None => Malformed
    case Some(control) => CheckedField(lib, l, base, Lookup(r.fields, base), base in r.fields, control)
  }

  ghost function CheckedField(lib: Library, l: Json, base: string, actual: Json, ok: bool, control: Context): Outcome
    requires l.Obj?
    decreases l, 0, 0
  {
    var given := base in l.fields;
    var c := if given then control.MustExist() else control;
    if !KeyChecks(lib, actual, ok, c) then Verdict(false)
    else if given then Compare(lib, l.fields[base], actual, c)
    else YES
  }

  /** The conjunction over all base keys, plus "no unmentioned actual key" under no_extra. */
  ghost function ObjectVerdict(lib: Library, l: Json, r: Json, noExtra: bool): Outcome
    requires l.Obj? && r.Obj?
    decreases l, 1
  {
    var bases := Bases(l.fields.Keys);
    if exists b :: b in bases && Field(lib, l, r, b) == Malformed then Malformed
    else Verdict(
      && (forall b :: b in bases ==> Field(lib, l, r, b) == YES)
      && (noExtra ==> r.fields.Keys <= bases))
  }

  ghost predicate CleanObject(fields: map<string, Json>) {
    forall k :: k in fields ==> CleanKey(k)
  }

  /** Every key is clean and no control ambiguous: no order makes a difference. */
  ghost predicate Clear(l: Json) {
    match l
    case Arr(elems) => forall i :: 0 <= i < |elems| ==> Clear(elems[i])
    case Obj(fields) =>
      && CleanObject(fields)
      && (forall k :: k in fields && IsControlKey(k) && fields[k].Obj? ==> !Ambiguous(fields[k].fields))
      && (forall k :: k in fields && !IsControlKey(k) ==> Clear(fields[k]))
    case _ => true
  }

  /** Clear, and every control is an object of known settings with values of the right type. */
  ghost predicate WellFormed(l: Json) {
    match l
    case Arr(elems) => forall i :: 0 <= i < |elems| ==> WellFormed(elems[i])
    case Obj(fields) =>
      && CleanObject(fields)
      && (forall k :: k in fields && IsControlKey(k) ==>
            fields[k].Obj? && AllValid(fields[k].fields) && !Ambiguous(fields[k].fields))
      && (forall k :: k in fields && !IsControlKey(k) ==> WellFormed(fields[k]))
    case _ => true
  }

  lemma {:induction false} WellFormedIsClear(l: Json)
    requires WellFormed(l)
    ensures Clear(l)
    decreases l
  {
    match l {
      case Arr(elems) =>
        forall i | 0 <= i < |elems| ensures Clear(elems[i]) {
          WellFormedIsClear(elems[i]);
        }
      case Obj(fields) =>
        forall k | k in fields && !IsControlKey(k) ensures Clear(fields[k]) {
          WellFormedIsClear(fields[k]);
        }
      case _ =>
    }
  }

  // ---------- the walk of objectComparison over its map ----------

  /**
   The locals of the loop: the keys left in the copied map, the base keys taken, the last
   actual value read, and the verdict so far.
   */
  datatype Walk = Aborted | Walking(left: set<string>, taken: set<string>, actual: Json, ok: bool, equal: bool)

  ghost predicate Within(w: Walk, l: Json)
    requires l.Obj?
  {
    w.Walking? ==> w.left <= l.fields.Keys
  }

  /** The control used for a key, in its order-free meaning, None when it is malformed, and the key its decoding deletes. */
  ghost function VisitedControl(l: Json, left: set<string>, ck: string): (Option<Context>, set<string>)
    requires l.Obj? && ck in l.fields && left <= l.fields.Keys
  {
    if IsControlKey(ck) then
      match l.fields[ck]
      case Obj(fields) => (if AllValid(fields) then Some(MeaningOf(fields)) else None, {ck})
      case _ => (None, {})
    else
      var control := ControlKey(ck);
      if control in left && l.fields[control].Obj? then
        var fields := l.fields[control].fields;
        (if AllValid(fields) then Some(MeaningOf(fields)) else None, {control})
      else (Some(EMPTY), {})
  }

  /** Nothing happens for a key that was deleted or whose base is taken, nor once the comparison has failed. */
  ghost predicate Skipped(w: Walk, ck: string) {
    w.Aborted? || ck !in w.left || ck in w.taken
  }

  /** One iteration of the loop. */
  ghost function Visit(lib: Library, l: Json, r: Json, w: Walk, ck: string): (w': Walk)
    requires l.Obj? && r.Obj? && Within(w, l) && ck in l.fields
    ensures Within(w', l)
  {
    if Skipped(w, ck) then w else Moved(l, r, w, ck, VisitOutcome(lib, l, r, w, ck))
  }

  ghost function VisitOutcome(lib: Library, l: Json, r: Json, w: Walk, ck: string): Outcome
    requires l.Obj? && r.Obj? && w.Walking? && Within(w, l) && ck in l.fields
  {
    var base := BaseOf(ck);
    match VisitedControl(l, w.left, ck).0
    case None => Malformed
    case Some(control) => CheckedField(lib, l, base, ActualRead(r, w, base), FoundRead(r, w, base), control)
  }

  /** The actual value compared with a base key; of a base taken before, the value read last is compared again. */
  ghost function ActualRead(r: Json, w: Walk, base: string): Json
    requires r.Obj? && w.Walking?
  {
    if base in w.taken then w.actual else Lookup(r.fields, base)
  }

  ghost predicate FoundRead(r: Json, w: Walk, base: string)
    requires r.Obj? && w.Walking?
  {
    if base in w.taken then w.ok else base in r.fields
  }

  /** The walk after a key whose comparison has this outcome. */
  ghost function Moved(l: Json, r: Json, w: Walk, ck: string, outcome: Outcome): Walk
    requires l.Obj? && r.Obj? && w.Walking? && Within(w, l) && ck in l.fields
  {
    var base := BaseOf(ck);
    match outcome
    case Malformed => Aborted
    case Verdict(equal) =>
      Walking(w.left - VisitedControl(l, w.left, ck).1, w.taken + {base}, ActualRead(r, w, base), FoundRead(r, w, base),
              w.equal && equal)
  }

  ghost function StartOf(l: Json): Walk
    requires l.Obj?
  {
    Walking(l.fields.Keys, {}, Null, false, true)
  }

  ghost function Walked(lib: Library, l: Json, r: Json, order: seq<string>): (w: Walk)
    requires l.Obj? && r.Obj? && forall k :: k in order ==> k in l.fields
    ensures Within(w, l)
  {
    if order == [] then StartOf(l)
    else Visit(lib, l, r, Walked(lib, l, r, order[..|order| - 1]), order[|order| - 1])
  }

  /** What objectComparison returns when its map is ranged over in the given order. */
  ghost function WalkVerdict(lib: Library, l: Json, r: Json, noExtra: bool, order: seq<string>): Outcome
    requires l.Obj? && r.Obj? && forall k :: k in order ==> k in l.fields
  {
    Ending(r, Walked(lib, l, r, order), noExtra)
  }

  ghost function Ending(r: Json, w: Walk, noExtra: bool): Outcome
    requires r.Obj?
  {
    match w
    case Aborted => Malformed
    case Walking(_, taken, _, _, equal) => Verdict(equal && (noExtra ==> r.fields.Keys <= taken))
  }

  /** A base key processed without its control, whose control key is still to come and is no object. */
  ghost predicate Doomed(l: Json, w: Walk, b: string)
    requires l.Obj? && w.Walking?
  {
    ControlKey(b) in w.left && ControlKey(b) in l.fields && !l.fields[ControlKey(b)].Obj?
  }

  /** Which keys are left and which bases are taken. */
  ghost predicate WalkKeys(l: Json, w: Walk, seen: set<string>)
    requires l.Obj? && w.Walking?
  {
    && w.left <= l.fields.Keys
    && w.taken == Bases(seen)
    && (forall k :: k in l.fields && !IsControlKey(k) ==> k in w.left)
    && (forall k :: k in l.fields && k !in w.left ==> BaseOf(k) in w.taken)
    && (forall b :: b in w.taken && ControlKey(b) in w.left ==> ControlKey(b) !in seen && Doomed(l, w, b))
  }

  /** An outcome for every base key of an expected object, put together. */
  ghost function Combined(r: Json, outcomes: map<string, Outcome>, noExtra: bool): Outcome
    requires r.Obj?
  {
    if exists b :: b in outcomes && outcomes[b] == Malformed then Malformed
    else Verdict(
      && (forall b :: b in outcomes ==> outcomes[b] == YES)
      && (noExtra ==> r.fields.Keys <= outcomes.Keys))
  }

  ghost function Fields(lib: Library, l: Json, r: Json): map<string, Outcome>
    requires l.Obj? && r.Obj?
  {
    map b | b in Bases(l.fields.Keys) :: Field(lib, l, r, b)
  }

  /** What the walk says about the outcomes of the bases taken. */
  ghost predicate Tells(l: Json, outcomes: map<string, Outcome>, w: Walk)
    requires l.Obj? && w.Walking?
  {
    && (forall b :: b in w.taken ==> b in outcomes)
    && (forall b :: b in w.taken && !Doomed(l, w, b) ==> outcomes[b] != Malformed)
    && ((forall b :: b in w.taken ==> !Doomed(l, w, b)) ==>
          (w.equal <==> forall b :: b in w.taken ==> outcomes[b] == YES))
  }

  /** The outcomes of the base keys account for the walk over the keys seen. */
  ghost predicate Tracks(l: Json, outcomes: map<string, Outcome>, w: Walk, seen: set<string>)
    requires l.Obj?
  {
    if w.Aborted? then exists b :: b in outcomes && outcomes[b] == Malformed
    else WalkKeys(l, w, seen) && Tells(l, outcomes, w)
  }

  lemma BasesGrow(seen: set<string>, ck: string)
    ensures Bases(seen + {ck}) == Bases(seen) + {BaseOf(ck)}
  {
  }

  lemma CleanPair(fields: map<string, Json>, ck: string)
    requires CleanObject(fields) && ck in fields
    ensures !IsControlKey(BaseOf(ck))
    ensures IsControlKey(ck) ==> ControlKey(BaseOf(ck)) == ck
    ensures !IsControlKey(ck) ==> BaseOf(ck) == ck
    ensures ControlKey(BaseOf(ck)) in fields ==> BaseOf(ControlKey(BaseOf(ck))) == BaseOf(ck)
  {
    var base := BaseOf(ck);
    BaseIsNoControl(ck);
    if ControlKey(base) in fields {
      assert IsControlKey(ControlKey(base));
      var other := BaseOf(ControlKey(base));
      assert ControlKey(other)[..|other|] == other && ControlKey(base)[..|base|] == base;
    }
  }

  /** A skipped key has its base processed already. */
  lemma SkipKeepsKeys(l: Json, w: Walk, seen: set<string>, ck: string)
    requires l.Obj? && CleanObject(l.fields) && ck in l.fields
    requires seen <= l.fields.Keys && w.Walking? && WalkKeys(l, w, seen) && Skipped(w, ck)
    ensures WalkKeys(l, w, seen + {ck})
  {
    BasesGrow(seen, ck);
    if ck in w.taken {
      var k :| k in seen && BaseOf(k) == ck;
      CleanPair(l.fields, k);
    }
    CleanPair(l.fields, ck);
  }

  lemma SkipTracks(l: Json, outcomes: map<string, Outcome>, w: Walk, seen: set<string>, ck: string)
    requires l.Obj? && CleanObject(l.fields) && ck in l.fields && seen <= l.fields.Keys
    requires Tracks(l, outcomes, w, seen) && Skipped(w, ck)
    ensures Tracks(l, outcomes, w, seen + {ck})
  {
    if w.Walking? {
      SkipKeepsKeys(l, w, seen, ck);
    }
  }

  /** Before a key is processed, its base is untouched or doomed; a doomed one stops the walk. */
  lemma FreshBase(l: Json, w: Walk, seen: set<string>, ck: string)
    requires l.Obj? && CleanObject(l.fields) && ck in l.fields
    requires w.Walking? && WalkKeys(l, w, seen) && ck in w.left && ck !in w.taken
    ensures VisitedControl(l, w.left, ck).0.Some? ==> BaseOf(ck) !in w.taken
    ensures ControlKey(BaseOf(ck)) in l.fields && BaseOf(ck) !in w.taken ==> ControlKey(BaseOf(ck)) in w.left
    ensures BaseOf(ck) in w.taken ==> IsControlKey(ck) && !l.fields[ck].Obj?
  {
    CleanPair(l.fields, ck);
  }

  /** A base key whose control is no object: processed before its control, it is doomed. */
  ghost predicate DoomedKey(l: Json, ck: string)
    requires l.Obj? && ck in l.fields
  {
    !IsControlKey(ck) && ControlKey(ck) in l.fields && !l.fields[ControlKey(ck)].Obj?
  }

  /** What a completed visit does to the keys left and the bases taken. */
  ghost predicate Moves(l: Json, w: Walk, w': Walk, ck: string)
    requires l.Obj? && w.Walking? && w'.Walking? && w.left <= l.fields.Keys && ck in l.fields
  {
    var (control, deleted) := VisitedControl(l, w.left, ck);
    control.Some? && w'.left == w.left - deleted && w'.taken == w.taken + {BaseOf(ck)}
  }

  lemma MovesLeft(l: Json, w: Walk, w': Walk, seen: set<string>, ck: string)
    requires l.Obj? && CleanObject(l.fields) && ck in l.fields
    requires w.Walking? && w'.Walking? && WalkKeys(l, w, seen) && Moves(l, w, w', ck)
    ensures forall k :: k in l.fields && !IsControlKey(k) ==> k in w'.left
    ensures forall k :: k in l.fields && k !in w'.left ==> BaseOf(k) in w'.taken
  {
    var deleted := VisitedControl(l, w.left, ck).1;
    CleanPair(l.fields, ck);
    assert IsControlKey(ControlKey(ck));
    forall k | k in l.fields && k !in w'.left ensures BaseOf(k) in w'.taken {
      if k in w.left {
        assert k in deleted;
      }
    }
  }

  lemma MovesDoomed(l: Json, w: Walk, w': Walk, seen: set<string>, ck: string, b: string)
    requires l.Obj? && CleanObject(l.fields)
    requires w.Walking? && w'.Walking? && ck in w.left && ck !in w.taken && WalkKeys(l, w, seen) && Moves(l, w, w', ck)
    requires b in w'.taken && ControlKey(b) in w'.left
    ensures ControlKey(b) !in seen + {ck} && Doomed(l, w', b)
  {
    var control, deleted := VisitedControl(l, w.left, ck).0, VisitedControl(l, w.left, ck).1;
    CleanPair(l.fields, ck);
    if b in w.taken {
      assert Doomed(l, w, b);
    } else {
      assert b == BaseOf(ck);
      assert !IsControlKey(ck) && ControlKey(b) !in deleted;
      assert !l.fields[ControlKey(b)].Obj?;
      assert ControlKey(b) in seen ==> BaseOf(ControlKey(b)) in Bases(seen);
    }
  }

  lemma MoveKeepsKeys(l: Json, w: Walk, w': Walk, seen: set<string>, ck: string)
    requires l.Obj? && CleanObject(l.fields) && ck in l.fields && ck !in seen && seen <= l.fields.Keys
    requires w.Walking? && w'.Walking? && WalkKeys(l, w, seen) && ck in w.left && ck !in w.taken && Moves(l, w, w', ck)
    ensures WalkKeys(l, w', seen + {ck})
  {
    MovesLeft(l, w, w', seen, ck);
    forall b | b in w'.taken && ControlKey(b) in w'.left
      ensures ControlKey(b) !in seen + {ck} && Doomed(l, w', b)
    {
      MovesDoomed(l, w, w', seen, ck, b);
    }
    BasesGrow(seen, ck);
  }

  /** A visit dooms at most its own base, and no doomed one is saved. */
  lemma SameDoomed(l: Json, w: Walk, w': Walk, seen: set<string>, ck: string)
    requires l.Obj? && CleanObject(l.fields) && ck in l.fields
    requires w.Walking? && w'.Walking? && WalkKeys(l, w, seen) && ck in w.left && ck !in w.taken && Moves(l, w, w', ck)
    ensures BaseOf(ck) !in w.taken
    ensures forall b :: b in w.taken ==> (Doomed(l, w', b) <==> Doomed(l, w, b))
    ensures Doomed(l, w', BaseOf(ck)) <==> DoomedKey(l, ck)
  {
    CleanPair(l.fields, ck);
    FreshBase(l, w, seen, ck);
    var base := BaseOf(ck);
    forall b | b in w.taken ensures Doomed(l, w', b) <==> Doomed(l, w, b) {
      assert ControlKey(b)[..|b|] == b && ControlKey(base)[..|base|] == base;
    }
  }

  lemma MoveTells(l: Json, outcomes: map<string, Outcome>, w: Walk, w': Walk, seen: set<string>, ck: string, equal: bool)
    requires l.Obj? && CleanObject(l.fields) && ck in l.fields && BaseOf(ck) in outcomes
    requires w.Walking? && w'.Walking? && WalkKeys(l, w, seen) && ck in w.left && ck !in w.taken && Moves(l, w, w', ck)
    requires Tells(l, outcomes, w) && w'.equal == (w.equal && equal)
    requires outcomes[BaseOf(ck)] == Verdict(equal) || DoomedKey(l, ck)
    ensures Tells(l, outcomes, w')
  {
    SameDoomed(l, w, w', seen, ck);
  }

  /** A visit with the outcome of its base, or with any outcome where the base is doomed, is tracked. */
  lemma VisitTracks(l: Json, r: Json, outcomes: map<string, Outcome>, w: Walk, seen: set<string>, ck: string, o: Outcome)
    requires l.Obj? && r.Obj? && CleanObject(l.fields) && ck in l.fields && ck !in seen && seen <= l.fields.Keys
    requires w.Walking? && Tracks(l, outcomes, w, seen) && !Skipped(w, ck) && BaseOf(ck) in outcomes
    requires o == outcomes[BaseOf(ck)] || (DoomedKey(l, ck) && outcomes[BaseOf(ck)] == Malformed)
    requires VisitedControl(l, w.left, ck).0.None? ==> o == Malformed
    ensures Tracks(l, outcomes, Moved(l, r, w, ck, o), seen + {ck})
  {
    var w' := Moved(l, r, w, ck, o);
    if o != Malformed {
      MoveKeepsKeys(l, w, w', seen, ck);
      MoveTells(l, outcomes, w, w', seen, ck, o.equal);
    }
  }

  /** A complete walk ends as the outcomes say. */
  lemma TracksEnd(l: Json, r: Json, outcomes: map<string, Outcome>, w: Walk, noExtra: bool)
    requires l.Obj? && r.Obj? && outcomes.Keys == Bases(l.fields.Keys) && Tracks(l, outcomes, w, l.fields.Keys)
    ensures Ending(r, w, noExtra) == Combined(r, outcomes, noExtra)
  {
    if w.Walking? {
      assert forall b :: b in w.taken ==> !Doomed(l, w, b);
    }
  }

  lemma VisitIsField(lib: Library, l: Json, r: Json, w: Walk, seen: set<string>, ck: string)
    requires l.Obj? && r.Obj? && CleanObject(l.fields) && ck in l.fields
    requires w.Walking? && WalkKeys(l, w, seen) && !Skipped(w, ck)
    ensures var o, field := VisitOutcome(lib, l, r, w, ck), Field(lib, l, r, BaseOf(ck));
      o == field || (DoomedKey(l, ck) && field == Malformed)
  {
    CleanPair(l.fields, ck);
    FreshBase(l, w, seen, ck);
  }

  lemma {:induction false} WalkedTracks(lib: Library, l: Json, r: Json, order: seq<string>)
    requires l.Obj? && r.Obj? && CleanObject(l.fields) && Listing(order, l.fields.Keys)
    ensures Tracks(l, Fields(lib, l, r), Walked(lib, l, r, order), Keys(order))
  {
    if order != [] {
      var n := |order| - 1;
      var front, ck := order[..n], order[n];
      ListingFront(order, l.fields.Keys);
      WalkedTracks(lib, l, r, front);
      var w := Walked(lib, l, r, front);
      if Skipped(w, ck) {
        SkipTracks(l, Fields(lib, l, r), w, Keys(front), ck);
      } else {
        assert BaseOf(ck) in Bases(l.fields.Keys);
        VisitIsField(lib, l, r, w, Keys(front), ck);
        VisitTracks(l, r, Fields(lib, l, r), w, Keys(front), ck, VisitOutcome(lib, l, r, w, ck));
      }
    }
  }

  /** Every order of ranging over the expected object gives the order-free verdict. */
  lemma WalkOrderIndependent(lib: Library, l: Json, r: Json, noExtra: bool, order: seq<string>)
    requires l.Obj? && r.Obj? && CleanObject(l.fields) && IsOrder(order, l.fields.Keys)
    ensures WalkVerdict(lib, l, r, noExtra, order) == ObjectVerdict(lib, l, r, noExtra)
  {
    WalkedTracks(lib, l, r, order);
    assert Keys(order) == l.fields.Keys;
    TracksEnd(l, r, Fields(lib, l, r), Walked(lib, l, r, order), noExtra);
    CombinedFields(lib, l, r, noExtra);
  }

  lemma CombinedFields(lib: Library, l: Json, r: Json, noExtra: bool)
    requires l.Obj? && r.Obj?
    ensures Combined(r, Fields(lib, l, r), noExtra) == ObjectVerdict(lib, l, r, noExtra)
  {
    var fields := Fields(lib, l, r);
    assert forall b :: b in Bases(l.fields.Keys) <==> b in fields;
    assert forall b :: b in fields ==> fields[b] == Field(lib, l, r, b);
  }
}

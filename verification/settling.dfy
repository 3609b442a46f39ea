/** When all runs end alike: clear expected values, and objects with ambiguous controls. */
module Settling {
  import opened Wrappers
  import opened JsonValues
  import opened Control
  import opened Matching
  import opened Comparison
  import opened Choices
  import opened Runs
  import opened Outcomes

  /** All runs end alike. */
  ghost predicate Settled(lib: Library, l: Json, r: Json, c: Context) {
    forall o1, o2 :: May(lib, l, r, c, o1) && May(lib, l, r, c, o2) ==> o1 == o2
  }

  // ---------- objects with ambiguous controls ----------

  ghost predicate SomeAmbiguous(l: Json)
    requires l.Obj?
  {
    exists k :: k in l.fields && IsControlKey(k) && l.fields[k].Obj? && Ambiguous(l.fields[k].fields)
  }

  /** Clean keys in objects, which may be nested in one another, and clear values elsewhere. */
  ghost predicate Objectwise(l: Json) {
    match l
    case Obj(fields) => CleanObject(fields) && forall k :: k in fields && !IsControlKey(k) ==> Objectwise(fields[k])
    case _ => Clear(l)
  }

  /** An ambiguous control in an object or in one nested in it. */
  ghost predicate AmbiguousWithin(l: Json) {
    l.Obj? && (SomeAmbiguous(l) || exists k :: k in l.fields && !IsControlKey(k) && AmbiguousWithin(l.fields[k]))
  }

  lemma {:induction false} ClearIsObjectwise(l: Json)
    requires Clear(l)
    ensures Objectwise(l) && !AmbiguousWithin(l)
    decreases l
  {
    if l.Obj? {
      forall k | k in l.fields && !IsControlKey(k) ensures Objectwise(l.fields[k]) && !AmbiguousWithin(l.fields[k]) {
        ClearIsObjectwise(l.fields[k]);
      }
    }
  }

  lemma {:induction false} ClearIsClean(l: Json)
    requires Clear(l)
    ensures CleanWithin(l)
    decreases l
  {
    match l {
      case Arr(elems) =>
        forall i | 0 <= i < |elems| ensures CleanWithin(elems[i]) {
          ClearIsClean(elems[i]);
        }
      case Obj(fields) =>
        forall k | k in fields && !IsControlKey(k) ensures CleanWithin(fields[k]) {
          ClearIsClean(fields[k]);
        }
      case _ =>
    }
  }

  lemma {:induction false} ObjectwiseIsClean(l: Json)
    requires Objectwise(l)
    ensures CleanWithin(l)
    decreases l
  {
    if l.Obj? {
      forall k | k in l.fields && !IsControlKey(k) ensures CleanWithin(l.fields[k]) {
        ObjectwiseIsClean(l.fields[k]);
      }
    } else {
      ClearIsClean(l);
    }
  }

  /** The outcomes of something that means this: a match may be missed where it wavers. */
  ghost function Spread(meant: Outcome, wavers: bool): set<Outcome> {
    if wavers && meant == YES then {YES, Verdict(false)} else {meant}
  }

  /** The control or the value of this base key leaves something open. */
  ghost predicate Wavers(l: Json, base: string)
    requires l.Obj?
  {
    || (ControlKey(base) in l.fields && l.fields[ControlKey(base)].Obj? && Ambiguous(l.fields[ControlKey(base)].fields))
    || (base in l.fields && AmbiguousWithin(l.fields[base]))
  }

  lemma WaveringBase(l: Json)
    requires l.Obj? && CleanObject(l.fields)
    ensures AmbiguousWithin(l) <==> exists b :: b in Bases(l.fields.Keys) && Wavers(l, b)
  {
    if AmbiguousWithin(l) {
      if SomeAmbiguous(l) {
        var k :| k in l.fields && IsControlKey(k) && l.fields[k].Obj? && Ambiguous(l.fields[k].fields);
        CleanPair(l.fields, k);
        assert BaseOf(k) in Bases(l.fields.Keys) && Wavers(l, BaseOf(k));
      } else {
        var k :| k in l.fields && !IsControlKey(k) && AmbiguousWithin(l.fields[k]);
        assert BaseOf(k) == k && k in Bases(l.fields.Keys) && Wavers(l, k);
      }
    }
    if b :| b in Bases(l.fields.Keys) && Wavers(l, b) {
      var k :| k in l.fields && BaseOf(k) == b;
      BaseIsNoControl(k);
      assert IsControlKey(ControlKey(b));
    }
  }

  // ---------- one field ----------

  lemma MustExistChecks(lib: Library, right: Json, ok: bool, c: Context)
    ensures KeyChecks(lib, right, ok, c.MustExist()) <==> KeyChecks(lib, right, ok, c) && ok
  {
    assert |"must_exist"| == 10 && |"must_not_exist"| == 14;
    assert |"is_string"| == 9 && |"is_number"| == 9 && |"is_bool"| == 7 && |"is_array"| == 8 && |"is_object"| == 9;
  }

  /** is_number has no part in comparing values. */
  lemma UnnumberedCompare(lib: Library, l: Json, r: Json, c: Context)
    ensures Compare(lib, l, r, Unnumbered(c).MustExist()) == Compare(lib, l, r, c.MustExist())
  {
    var d, e := Unnumbered(c).MustExist(), c.MustExist();
    assert |"order_matters"| == 13 && |"no_extra"| == 8 && |"element_no_extra"| == 16 && |"is_number"| == 9;
    assert d.OrderMatters() == e.OrderMatters() && d.NoExtra() == e.NoExtra() && d.ElementNoExtra() == e.ElementNoExtra();
    assert d.Depth() == e.Depth();
    assert Next(d) == Next(e);
  }

  /** Under a control read one way, a field spreads as the value given for it does. */
  lemma CheckedSpread(lib: Library, l: Json, base: string, actual: Json, ok: bool, c: Context)
    requires l.Obj? && Objectwise(l) && !IsControlKey(base)
    ensures CheckedOutcomes(lib, l, base, actual, ok, c) ==
      Spread(CheckedField(lib, l, base, actual, ok, c), base in l.fields && AmbiguousWithin(l.fields[base]))
    decreases l, 0
  {
    if base in l.fields {
      OutcomesSpread(lib, l.fields[base], actual, c.MustExist());
    }
  }

  /** Read with is_number off, an ambiguous control fails the field; any other reads as it is meant. */
  lemma SwitchedOffField(lib: Library, l: Json, base: string, actual: Json, ok: bool, fields: map<string, Json>)
    requires l.Obj? && AllValid(fields) && Contradictory(fields)
    ensures var off, meant := Unnumbered(MeaningOf(fields)), MeaningOf(fields);
      CheckedField(lib, l, base, actual, ok, off) ==
        if Ambiguous(fields) then Verdict(false) else CheckedField(lib, l, base, actual, ok, meant)
  {
    var meant := MeaningOf(fields);
    SwitchedOffChecks(lib, fields, actual, ok);
    MustExistChecks(lib, actual, ok, meant);
    MustExistChecks(lib, actual, ok, Unnumbered(meant));
    if base in l.fields {
      UnnumberedCompare(lib, l.fields[base], actual, meant);
    }
  }

  /** An ambiguous control lets only numbers pass, and comparing with one is no error. */
  lemma AmbiguousField(lib: Library, l: Json, base: string, actual: Json, ok: bool, fields: map<string, Json>)
    requires l.Obj? && Ambiguous(fields)
    ensures CheckedField(lib, l, base, actual, ok, MeaningOf(fields)) != Malformed
  {
    var meant := MeaningOf(fields);
    MustExistChecks(lib, actual, ok, meant);
    if KeyChecks(lib, actual, ok, meant) {
      MeaningBound(fields);
      BoundNeedsNumber(lib, actual, ok, meant);
    }
  }

  lemma CheckedInAll(lib: Library, l: Json, base: string, actual: Json, ok: bool, c: Context)
    requires l.Obj?
    ensures forall o :: o in CheckedOutcomes(lib, l, base, actual, ok, c) ==> o in ALL
  {
    forall o: Outcome ensures o in ALL {
      InAll(o);
    }
  }

  lemma OneReading(lib: Library, l: Json, r: Json, base: string, c: Context)
    requires l.Obj? && r.Obj? && ReadingsOf(l, base) == {Some(c)}
    ensures FieldOutcomes(lib, l, r, base) == CheckedOutcomes(lib, l, base, Lookup(r.fields, base), base in r.fields, c)
  {
    CheckedInAll(lib, l, base, Lookup(r.fields, base), base in r.fields, c);
    assert Some(c) in ReadingsOf(l, base);
    forall o | o in CheckedOutcomes(lib, l, base, Lookup(r.fields, base), base in r.fields, c)
      ensures o in FieldOutcomes(lib, l, r, base)
    {
      assert OutcomeUnder(lib, l, r, base, Some(c), o);
    }
  }

  lemma TwoReadings(lib: Library, l: Json, r: Json, base: string, c: Context, d: Context)
    requires l.Obj? && r.Obj? && ReadingsOf(l, base) == {Some(c), Some(d)}
    ensures var actual, ok := Lookup(r.fields, base), base in r.fields;
      FieldOutcomes(lib, l, r, base) ==
        CheckedOutcomes(lib, l, base, actual, ok, c) + CheckedOutcomes(lib, l, base, actual, ok, d)
  {
    var actual, ok := Lookup(r.fields, base), base in r.fields;
    CheckedInAll(lib, l, base, actual, ok, c);
    CheckedInAll(lib, l, base, actual, ok, d);
    assert Some(c) in ReadingsOf(l, base) && Some(d) in ReadingsOf(l, base);
    forall o | o in CheckedOutcomes(lib, l, base, actual, ok, c) ensures o in FieldOutcomes(lib, l, r, base) {
      assert OutcomeUnder(lib, l, r, base, Some(c), o);
    }
    forall o | o in CheckedOutcomes(lib, l, base, actual, ok, d) ensures o in FieldOutcomes(lib, l, r, base) {
      assert OutcomeUnder(lib, l, r, base, Some(d), o);
    }
  }

  lemma NoReading(lib: Library, l: Json, r: Json, base: string)
    requires l.Obj? && r.Obj? && ReadingsOf(l, base) == {None}
    ensures FieldOutcomes(lib, l, r, base) == {Malformed}
  {
    assert None in ReadingsOf(l, base);
    assert OutcomeUnder(lib, l, r, base, None, Malformed);
  }

  lemma FieldSpread(lib: Library, l: Json, r: Json, base: string)
    requires l.Obj? && r.Obj? && Objectwise(l) && !IsControlKey(base)
    ensures FieldOutcomes(lib, l, r, base) == Spread(Field(lib, l, r, base), Wavers(l, base))
    decreases l, 1, 1
  {
    var actual, ok := Lookup(r.fields, base), base in r.fields;
    match ControlOf(l.fields, base) {
      case None => NoReading(lib, l, r, base);
      case Some(meant) =>
        CheckedSpread(lib, l, base, actual, ok, meant);
        if ReadingsOf(l, base) == {Some(meant)} {
          OneReading(lib, l, r, base, meant);
        } else {
          TwoWaysSpread(lib, l, r, base, l.fields[ControlKey(base)].fields);
        }
    }
  }

  /** A contradictory control, read either way. */
  lemma TwoWaysSpread(lib: Library, l: Json, r: Json, base: string, fields: map<string, Json>)
    requires l.Obj? && r.Obj? && Objectwise(l) && !IsControlKey(base) && ControlKey(base) in l.fields
    requires l.fields[ControlKey(base)] == Obj(fields) && AllValid(fields) && Contradictory(fields)
    ensures FieldOutcomes(lib, l, r, base) == Spread(Field(lib, l, r, base), Wavers(l, base))
    decreases l, 1, 0
  {
    var actual, ok, meant := Lookup(r.fields, base), base in r.fields, MeaningOf(fields);
    TwoReadings(lib, l, r, base, meant, Unnumbered(meant));
    CheckedSpread(lib, l, base, actual, ok, meant);
    CheckedSpread(lib, l, base, actual, ok, Unnumbered(meant));
    SwitchedOffField(lib, l, base, actual, ok, fields);
    if Ambiguous(fields) {
      AmbiguousField(lib, l, base, actual, ok, fields);
    }
  }

  // ---------- objects, arrays, all values ----------

  lemma FieldsDrawn(lib: Library, l: Json, r: Json)
    requires l.Obj? && r.Obj? && Objectwise(l)
    ensures forall b :: b in Bases(l.fields.Keys) ==>
      FieldOutcomes(lib, l, r, b) == Spread(Field(lib, l, r, b), Wavers(l, b))
    decreases l, 2
  {
    forall b | b in Bases(l.fields.Keys) ensures FieldOutcomes(lib, l, r, b) == Spread(Field(lib, l, r, b), Wavers(l, b)) {
      var k :| k in l.fields && BaseOf(k) == b;
      BaseIsNoControl(k);
      FieldSpread(lib, l, r, b);
    }
  }

  /** Whatever is drawn, the object does no better than it is meant, and misses a match only if some base wavers. */
  lemma DrawnSpread(lib: Library, l: Json, r: Json, noExtra: bool, outcomes: map<string, Outcome>)
    requires l.Obj? && r.Obj? && Objectwise(l) && Draws(lib, l, r, outcomes)
    ensures Combined(r, outcomes, noExtra) in Spread(ObjectVerdict(lib, l, r, noExtra), AmbiguousWithin(l))
    decreases l, 3
  {
    FieldsDrawn(lib, l, r);
    WaveringBase(l);
    CombinedFields(lib, l, r, noExtra);
    SpreadCombines(r, outcomes, Fields(lib, l, r), noExtra, set b | b in outcomes && Wavers(l, b));
  }

  lemma SpreadCombines(r: Json, outcomes: map<string, Outcome>, meant: map<string, Outcome>, noExtra: bool, wavering: set<string>)
    requires r.Obj? && outcomes.Keys == meant.Keys && wavering <= meant.Keys
    requires forall b :: b in outcomes ==> outcomes[b] in Spread(meant[b], b in wavering)
    ensures Combined(r, outcomes, noExtra) in Spread(Combined(r, meant, noExtra), wavering != {})
  {
    if b :| b in meant && meant[b] == Malformed {
      assert outcomes[b] == Malformed;
    } else if b :| b in meant && meant[b] == Verdict(false) {
      assert outcomes[b] == Verdict(false);
    }
  }

  lemma OneMissed(r: Json, meant: map<string, Outcome>, noExtra: bool, b: string)
    requires r.Obj? && b in meant && Combined(r, meant, noExtra) == YES
    ensures Combined(r, meant[b := Verdict(false)], noExtra) == Verdict(false)
    ensures meant[b] == YES
  {
    var missed := meant[b := Verdict(false)];
    assert missed[b] != YES;
    assert forall q :: q in missed ==> missed[q] != Malformed;
  }

  /** The outcomes that are meant can be drawn, and where a base wavers, a match can be missed there. */
  lemma MeantDrawn(lib: Library, l: Json, r: Json)
    requires l.Obj? && r.Obj? && Objectwise(l)
    ensures Draws(lib, l, r, Fields(lib, l, r))
    ensures forall b :: b in Bases(l.fields.Keys) && Wavers(l, b) && Field(lib, l, r, b) == YES ==>
      Draws(lib, l, r, Fields(lib, l, r)[b := Verdict(false)])
    decreases l, 3
  {
    FieldsDrawn(lib, l, r);
    forall b | b in Bases(l.fields.Keys) && Wavers(l, b) && Field(lib, l, r, b) == YES
      ensures Draws(lib, l, r, Fields(lib, l, r)[b := Verdict(false)])
    {
      assert FieldOutcomes(lib, l, r, b) == {YES, Verdict(false)};
    }
  }

  lemma MissedMatch(lib: Library, l: Json, r: Json, noExtra: bool) returns (outcomes: map<string, Outcome>)
    requires l.Obj? && r.Obj? && Objectwise(l) && AmbiguousWithin(l) && ObjectVerdict(lib, l, r, noExtra) == YES
    ensures Draws(lib, l, r, outcomes) && Combined(r, outcomes, noExtra) == Verdict(false)
    decreases l, 4
  {
    WaveringBase(l);
    var b :| b in Bases(l.fields.Keys) && Wavers(l, b);
    CombinedFields(lib, l, r, noExtra);
    OneMissed(r, Fields(lib, l, r), noExtra, b);
    MeantDrawn(lib, l, r);
    outcomes := Fields(lib, l, r)[b := Verdict(false)];
  }

  lemma DrawIsOutcome(lib: Library, l: Json, r: Json, c: Context, outcomes: map<string, Outcome>)
    requires l.Obj? && r.Obj? && Draws(lib, l, r, outcomes)
    ensures Combined(r, outcomes, c.NoExtra()) in OutcomesOf(lib, l, r, c)
  {
    InAll(Combined(r, outcomes, c.NoExtra()));
  }

  lemma OutcomeIsDraw(lib: Library, l: Json, r: Json, c: Context, o: Outcome) returns (outcomes: map<string, Outcome>)
    requires l.Obj? && r.Obj? && o in OutcomesOf(lib, l, r, c)
    ensures Draws(lib, l, r, outcomes) && o == Combined(r, outcomes, c.NoExtra())
  {
    outcomes :| Draws(lib, l, r, outcomes) && o == Combined(r, outcomes, c.NoExtra());
  }

  lemma SpreadReached(lib: Library, l: Json, r: Json, c: Context, meant: Outcome)
    requires l.Obj? && r.Obj? && Objectwise(l) && meant == ObjectVerdict(lib, l, r, c.NoExtra())
    ensures meant in OutcomesOf(lib, l, r, c)
    ensures AmbiguousWithin(l) && meant == YES ==> Verdict(false) in OutcomesOf(lib, l, r, c)
    decreases l, 5
  {
    MeantDrawn(lib, l, r);
    CombinedFields(lib, l, r, c.NoExtra());
    DrawIsOutcome(lib, l, r, c, Fields(lib, l, r));
    if AmbiguousWithin(l) && meant == YES {
      var outcomes := MissedMatch(lib, l, r, c.NoExtra());
      DrawIsOutcome(lib, l, r, c, outcomes);
    }
  }

  lemma ObjectSpread(lib: Library, l: Json, r: Json, c: Context, meant: Outcome)
    requires l.Obj? && r.Obj? && Objectwise(l) && meant == ObjectVerdict(lib, l, r, c.NoExtra())
    ensures OutcomesOf(lib, l, r, c) == Spread(meant, AmbiguousWithin(l))
    decreases l, 6
  {
    var outcomes, spread := OutcomesOf(lib, l, r, c), Spread(meant, AmbiguousWithin(l));
    SpreadReached(lib, l, r, c, meant);
    assert spread <= outcomes;
    forall o | o in outcomes ensures o in spread {
      var drawn := OutcomeIsDraw(lib, l, r, c, o);
      DrawnSpread(lib, l, r, c.NoExtra(), drawn);
    }
  }

  /** A grid that offers one outcome everywhere. */
  lemma SinglesEnd(grid: Grid, m: Matrix, width: nat, ordered: bool, noExtra: bool, o: Outcome)
    requires |m| == |grid| && forall i :: 0 <= i < |m| ==> |m[i]| == |grid[i]|
    requires forall i, j :: 0 <= i < |m| && 0 <= j < |m[i]| ==> grid[i][j] == {m[i][j]}
    ensures MayEnd(grid, width, ordered, noExtra, o) <==> o == ArrayVerdict(m, width, ordered, noExtra)
  {
    forall d: Matrix | DrawnRows(d, grid) && |d| == |grid| ensures d == m {
      forall i | 0 <= i < |d| ensures d[i] == m[i] {
        assert Drawn(d[i], grid[i]);
        forall j | 0 <= j < |d[i]| ensures d[i][j] == m[i][j] {
          assert d[i][j] in grid[i][j];
        }
      }
    }
    assert DrawnRows(m, grid) by {
      forall i | 0 <= i < |m| ensures Drawn(m[i], grid[i]) {
        assert forall j :: 0 <= j < |m[i]| ==> m[i][j] in grid[i][j];
      }
    }
  }

  lemma ArraySingle(lib: Library, l: Json, r: Json, c: Context)
    requires l.Arr? && r.Arr? && Clear(l)
    ensures OutcomesOf(lib, l, r, c) == {Compare(lib, l, r, c)}
    decreases l, 4
  {
    var grid, m := GridWithin(lib, l, r, Next(c)), Pairs(lib, l, r, Next(c));
    forall i, j | 0 <= i < |l.elems| && 0 <= j < |r.elems| ensures grid[i][j] == {m[i][j]} {
      ClearIsObjectwise(l.elems[i]);
      OutcomesSpread(lib, l.elems[i], r.elems[j], Next(c));
    }
    forall o ensures o in OutcomesOf(lib, l, r, c) <==> o == Compare(lib, l, r, c) {
      SinglesEnd(grid, m, |r.elems|, c.OrderMatters(), c.NoExtra(), o);
      InAll(o);
    }
  }

  /** The outcomes are the one that is meant, and a missed match where an ambiguous control leaves it open. */
  lemma {:induction false} OutcomesSpread(lib: Library, l: Json, r: Json, c: Context)
    requires Objectwise(l)
    ensures OutcomesOf(lib, l, r, c) == Spread(Compare(lib, l, r, c), AmbiguousWithin(l))
    decreases l, 7
  {
    if l.Arr? && r.Arr? {
      ArraySingle(lib, l, r, c);
    } else if l.Obj? && r.Obj? {
      ObjectSpread(lib, l, r, c, ObjectVerdict(lib, l, r, c.NoExtra()));
    }
  }

  /**
   Whether the verdict depends on the order inside control objects, at any level of nested
   objects: exactly when some control is ambiguous and the value matches with every
   control read as it is meant.
   */
  lemma SettledIff(lib: Library, l: Json, r: Json, c: Context)
    requires Objectwise(l)
    ensures Settled(lib, l, r, c) <==> !(AmbiguousWithin(l) && Compare(lib, l, r, c) == YES)
  {
    ObjectwiseIsClean(l);
    OutcomesSpread(lib, l, r, c);
    forall o ensures May(lib, l, r, c, o) <==> o in OutcomesOf(lib, l, r, c) {
      OutcomesIff(lib, l, r, c, o);
    }
    var meant := Compare(lib, l, r, c);
    assert meant in OutcomesOf(lib, l, r, c);
    if AmbiguousWithin(l) && meant == YES {
      assert May(lib, l, r, c, YES) && May(lib, l, r, c, Verdict(false));
    }
  }

  // ---------- clear values ----------

  /** For a clear expected value, whatever the orders, the comparison ends as `Compare` says. */
  lemma Determined(lib: Library, l: Json, r: Json, c: Context, o: Outcome)
    requires Clear(l)
    ensures May(lib, l, r, c, o) <==> o == Compare(lib, l, r, c)
  {
    ClearIsObjectwise(l);
    ClearIsClean(l);
    OutcomesSpread(lib, l, r, c);
    OutcomesIff(lib, l, r, c, o);
  }

  // ---------- an ambiguous control at work ----------

  function AmbiguousControl(): map<string, Json> {
    map["is_number" := Bool(false), "number_gt" := Num("0"), "is_bool" := Bool(true)]
  }

  const OTHERS := {"is_string", "is_array", "is_object", "must_exist", "must_not_exist", "element_count", "number_ge",
                   "number_lt", "number_le", "match", "not_match", "starts_with", "ends_with", "not_equal"}

  lemma OtherSettings()
    ensures forall key :: key in OTHERS ==> key != "is_number" && key != "number_gt" && key != "is_bool"
    ensures "is_number" != "number_gt" && "is_number" != "is_bool" && "number_gt" != "is_bool"
  {
    assert "is_number"[0] == 'i' && "is_number"[3] == 'n' && "is_string"[3] == 's' && "is_object"[3] == 'o';
    assert "number_gt"[7] == 'g' && "number_gt"[8] == 't' && "number_ge"[8] == 'e';
    assert "number_lt"[7] == 'l' && "number_le"[7] == 'l' && "not_match"[1] == 'o' && "not_equal"[1] == 'o';
    assert "number_gt"[1] == 'u' && "ends_with"[0] == 'e' && "number_gt"[0] == 'n';
    assert |"is_bool"| == 7 && |"is_array"| == 8 && |"match"| == 5 && |"must_exist"| == 10;
  }

  lemma AmbiguousControlIs()
    ensures Ambiguous(AmbiguousControl())
  {
    var f := AmbiguousControl();
    OtherSettings();
    assert f["is_number"] == Bool(false) && f["number_gt"] == Num("0") && f["is_bool"] == Bool(true);
    assert KindOf("number_gt").RangeKind? && KindOf("is_number").FlagKind? && KindOf("is_bool").FlagKind?;
    assert "is_string" !in f;
  }

  lemma OnlyThree(key: string)
    requires key in OTHERS
    ensures key !in AmbiguousControl()
  {
    OtherSettings();
  }

  /** The settings that are not given ask for nothing. */
  lemma OthersOff(c: Context, key: string)
    requires AllValid(AmbiguousControl()) && c == MeaningOf(AmbiguousControl()) && key in OTHERS
    ensures c.Text(key) == None && key !in c.flags && key !in c.ints && c.notEqual == None
  {
    OnlyThree(key);
    OnlyThree("not_equal");
    OtherSettings();
  }

  lemma OnlyNumberGt(c: Context)
    requires AllValid(AmbiguousControl()) && c == MeaningOf(AmbiguousControl())
    ensures c.Text("number_gt") == Some("0")
    ensures forall key :: key in OTHERS ==> c.Text(key) == None && key !in c.flags && key !in c.ints && c.notEqual == None
  {
    OtherSettings();
    assert KindOf("number_gt").RangeKind? && AmbiguousControl()["number_gt"] == Num("0");
    forall key | key in OTHERS ensures c.Text(key) == None && key !in c.flags && key !in c.ints && c.notEqual == None {
      OthersOff(c, key);
    }
  }

  lemma AmbiguousPasses(lib: Library)
    requires lib.floatOf("0") == Some(0.0) && lib.floatOf("1") == Some(1.0)
    ensures AllValid(AmbiguousControl()) && KeyChecks(lib, Num("1"), true, MeaningOf(AmbiguousControl()))
  {
    AmbiguousControlIs();
    MeaningBound(AmbiguousControl());
    OnlyNumberGt(MeaningOf(AmbiguousControl()));
  }

  function AmbiguousObject(a: string): Json {
    Obj(map[ControlKey(a) := Obj(AmbiguousControl())])
  }

  lemma AmbiguousObjectIs(a: string)
    requires !IsControlKey(a) && CleanKey(ControlKey(a))
    ensures var l := AmbiguousObject(a);
      && Bases(l.fields.Keys) == {a} && a !in l.fields && CleanObject(l.fields) && Objectwise(l) && SomeAmbiguous(l)
  {
    var l, b := AmbiguousObject(a), BaseOf(ControlKey(a));
    assert IsControlKey(ControlKey(a)) && ControlKey(a) in l.fields;
    assert ControlKey(b)[..|b|] == b && ControlKey(a)[..|a|] == a;
    AmbiguousControlIs();
  }

  lemma AmbiguousObjectMatches(lib: Library, a: string)
    requires lib.floatOf("0") == Some(0.0) && lib.floatOf("1") == Some(1.0)
    requires !IsControlKey(a) && CleanKey(ControlKey(a))
    ensures ObjectVerdict(lib, AmbiguousObject(a), Obj(map[a := Num("1")]), false) == YES
  {
    var l, r := AmbiguousObject(a), Obj(map[a := Num("1")]);
    AmbiguousObjectIs(a);
    AmbiguousPasses(lib);
    assert ControlOf(l.fields, a) == Some(MeaningOf(AmbiguousControl()));
    assert Lookup(r.fields, a) == Num("1") && a in r.fields;
    OneField(lib, l, r, a);
  }

  /** An object with one base key is compared as that key is. */
  lemma OneField(lib: Library, l: Json, r: Json, a: string)
    requires l.Obj? && r.Obj? && Bases(l.fields.Keys) == {a} && Field(lib, l, r, a) == YES
    ensures ObjectVerdict(lib, l, r, false) == YES
  {
  }

  /** is_number off, number_gt 0 and is_bool on, against 1: matches in some runs and not in others. */
  lemma AmbiguousUnsettled(lib: Library, a: string)
    requires lib.floatOf("0") == Some(0.0) && lib.floatOf("1") == Some(1.0)
    requires !IsControlKey(a) && CleanKey(ControlKey(a))
    ensures !Settled(lib, AmbiguousObject(a), Obj(map[a := Num("1")]), EMPTY)
  {
    AmbiguousObjectIs(a);
    AmbiguousObjectMatches(lib, a);
    SettledIff(lib, AmbiguousObject(a), Obj(map[a := Num("1")]), EMPTY);
  }
}

/** What the order of the expected object decides, and which control keys keep the verdict independent of it. */
module CleanKeys {
  import opened Wrappers
  import opened JsonValues
  import opened MapOrders
  import opened Control
  import opened Matching
  import opened Comparison
  import opened ComparisonProperties
  import opened Runs
  import opened Outcomes
  import opened Settling

  // ---------- what the order of an object decides ----------

  ghost predicate ClearBelow(l: Json)
    requires l.Obj?
  {
    forall k :: k in l.fields && !IsControlKey(k) ==> Clear(l.fields[k])
  }

  /** The control of a visited key, in whatever way it is read. */
  lemma ControlUsed(lib: Library, l: Json, r: Json, w: Walk, ck: string, o: Outcome) returns (control: Option<Context>)
    requires l.Obj? && r.Obj? && w.Walking? && Within(w, l) && ck in l.fields
    requires MayOutcome(lib, l, r, w, ck, o)
    ensures MayControl(l, w.left, ck, control)
    ensures control.None? ==> o == Malformed
    ensures control.Some? ==>
      MayField(lib, l, BaseOf(ck), ActualRead(r, w, BaseOf(ck)), FoundRead(r, w, BaseOf(ck)), control.value, o)
  {
    control :| MayControl(l, w.left, ck, control) &&
      match control
      case None => o == Malformed
      case Some(c) => MayField(lib, l, BaseOf(ck), ActualRead(r, w, BaseOf(ck)), FoundRead(r, w, BaseOf(ck)), c, o);
  }

  /** A control is read as it is meant, or with is_number off. */
  lemma ControlRead(l: Json, left: set<string>, ck: string, control: Option<Context>) returns (fields: map<string, Json>)
    requires l.Obj? && ck in l.fields && left <= l.fields.Keys && MayControl(l, left, ck, control) && !SomeAmbiguous(l)
    ensures
      || control == VisitedControl(l, left, ck).0
      || (&& AllValid(fields) && Contradictory(fields) && !Ambiguous(fields)
          && VisitedControl(l, left, ck).0 == Some(MeaningOf(fields)) && control == Some(Unnumbered(MeaningOf(fields))))
  {
    fields := map[];
    var key := if IsControlKey(ck) then ck else ControlKey(ck);
    assert IsControlKey(key);
    if (IsControlKey(ck) || key in left) && l.fields[key].Obj? {
      fields := l.fields[key].fields;
      DecodeIff(fields, control);
    }
  }

  lemma FieldDetermined(lib: Library, l: Json, base: string, actual: Json, ok: bool, c: Context, o: Outcome)
    requires l.Obj? && ClearBelow(l) && !IsControlKey(base)
    ensures MayField(lib, l, base, actual, ok, c, o) <==> o == CheckedField(lib, l, base, actual, ok, c)
  {
    if base in l.fields {
      Determined(lib, l.fields[base], actual, c.MustExist(), o);
    }
  }

  lemma MeaningControl(l: Json, left: set<string>, ck: string)
    requires l.Obj? && ck in l.fields && left <= l.fields.Keys
    ensures MayControl(l, left, ck, VisitedControl(l, left, ck).0)
  {
    var key := if IsControlKey(ck) then ck else ControlKey(ck);
    if (IsControlKey(ck) || key in left) && l.fields[key].Obj? {
      DecodeIff(l.fields[key].fields, VisitedControl(l, left, ck).0);
    }
  }

  /** Without ambiguous controls a visited key has one outcome. */
  lemma VisitDetermined(lib: Library, l: Json, r: Json, w: Walk, ck: string, o: Outcome)
    requires l.Obj? && r.Obj? && w.Walking? && Within(w, l) && ck in l.fields && ClearBelow(l) && !SomeAmbiguous(l)
    ensures MayOutcome(lib, l, r, w, ck, o) <==> o == VisitOutcome(lib, l, r, w, ck)
  {
    var base := BaseOf(ck);
    var actual, ok := ActualRead(r, w, base), FoundRead(r, w, base);
    BaseIsNoControl(ck);
    MeaningControl(l, w.left, ck);
    var meant := VisitedControl(l, w.left, ck).0;
    if meant.Some? {
      FieldDetermined(lib, l, base, actual, ok, meant.value, o);
    }
    if MayOutcome(lib, l, r, w, ck, o) {
      var control := ControlUsed(lib, l, r, w, ck, o);
      var fields := ControlRead(l, w.left, ck, control);
      if control != meant {
        FieldDetermined(lib, l, base, actual, ok, control.value, o);
        SwitchedOffField(lib, l, base, actual, ok, fields);
      }
    }
  }

  lemma {:induction false} WalkDetermined(lib: Library, l: Json, r: Json, order: seq<string>, w: Walk)
    requires l.Obj? && r.Obj? && (forall k :: k in order ==> k in l.fields) && ClearBelow(l) && !SomeAmbiguous(l)
    ensures MayWalk(lib, l, r, order, w) <==> w == Walked(lib, l, r, order)
  {
    if order != [] {
      var n := |order| - 1;
      var meant := Walked(lib, l, r, order[..n]);
      WalkDetermined(lib, l, r, order[..n], meant);
      VisitOnce(lib, l, r, meant, order[n], Visit(lib, l, r, meant, order[n]));
      WalkOn(lib, l, r, order, meant, Visit(lib, l, r, meant, order[n]));
      if MayWalk(lib, l, r, order, w) {
        var before :| && Within(before, l) && MayWalk(lib, l, r, order[..n], before)
                      && MayVisit(lib, l, r, before, order[n], w);
        WalkDetermined(lib, l, r, order[..n], before);
        VisitOnce(lib, l, r, meant, order[n], w);
      }
    }
  }

  lemma VisitOnce(lib: Library, l: Json, r: Json, w: Walk, ck: string, w': Walk)
    requires l.Obj? && r.Obj? && Within(w, l) && ck in l.fields && ClearBelow(l) && !SomeAmbiguous(l)
    ensures MayVisit(lib, l, r, w, ck, w') <==> w' == Visit(lib, l, r, w, ck)
  {
    if !Skipped(w, ck) {
      VisitDetermined(lib, l, r, w, ck, VisitOutcome(lib, l, r, w, ck));
      if MayVisit(lib, l, r, w, ck, w') {
        var o :| MayOutcome(lib, l, r, w, ck, o) && w' == Moved(l, r, w, ck, o);
        VisitDetermined(lib, l, r, w, ck, o);
      }
    }
  }

  /** Clear values under clear controls: the outcomes are the verdicts of the orders, be the keys clean or not. */
  lemma OrdersDecide(lib: Library, l: Json, r: Json, noExtra: bool, o: Outcome)
    requires l.Obj? && r.Obj? && ClearBelow(l) && !SomeAmbiguous(l)
    ensures MayObject(lib, l, r, noExtra, o) <==>
      exists order :: IsOrder(order, l.fields.Keys) && o == WalkVerdict(lib, l, r, noExtra, order)
  {
    if MayObject(lib, l, r, noExtra, o) {
      var order, w := WalkOf(lib, l, r, noExtra, o);
      WalkDetermined(lib, l, r, order, w);
    }
    if order :| IsOrder(order, l.fields.Keys) && o == WalkVerdict(lib, l, r, noExtra, order) {
      WalkDetermined(lib, l, r, order, Walked(lib, l, r, order));
    }
  }

  // ---------- clean keys ----------

  /** Nothing but the key u could make the outcome depend on an order. */
  ghost predicate OthersClear(l: Json, u: string) {
    && l.Obj? && u in l.fields && ClearBelow(l) && !SomeAmbiguous(l)
    && forall k :: k in l.fields && k != u ==> CleanKey(k)
  }

  // ---------- an object that reads a stale value ----------

  const X := Bool(true)
  const Y := Bool(false)

  /** The expected object; u is the control key whose base is read as a. */
  function Expected(a: string, b: string, u: string): Json {
    Obj(map[a := X, b := Y, u := Obj(map[])])
  }

  function Actual(a: string, b: string): Json {
    Obj(map[a := X, b := Y])
  }

  /** Two plain keys, the first being the base read from the unclean control key. */
  ghost predicate Setting(a: string, b: string, u: string) {
    && IsControlKey(u) && !CleanKey(u) && BaseOf(u) == a
    && !IsControlKey(a) && !IsControlKey(b) && a != b && ControlKey(b) != u
  }

  lemma SettingExists(u: string) returns (b: string)
    requires IsControlKey(u) && !CleanKey(u)
    ensures Setting(BaseOf(u), b, u)
  {
    BaseIsNoControl(u);
    if BaseOf(u) == "" {
      b := "b";
      assert ControlKey("b")[0] == 'b' && !SuffixAt(ControlKey("b"), 0);
      CleanKeyIff("b");
    } else {
      b := "";
      CleanKeyIff("");
    }
  }

  lemma SettingKeys(a: string, b: string, u: string)
    requires Setting(a, b, u)
    ensures var f := Expected(a, b, u).fields;
      && f.Keys == {a, b, u} && f[a] == X && f[b] == Y && f[u] == Obj(map[])
      && ControlKey(a) !in f && ControlKey(b) !in f
    ensures a != u && b != u
  {
    assert IsControlKey(ControlKey(a)) && IsControlKey(ControlKey(b));
  }

  lemma EmptyControl()
    ensures AllValid(map[]) && MeaningOf(map[]) == EMPTY
  {
  }

  /** Every value there passes the checks of a key that only has to exist. */
  lemma VisitPlain(lib: Library, l: Json, r: Json, w: Walk, k: string)
    requires l.Obj? && r.Obj? && w.Walking? && w.left <= l.fields.Keys && k in w.left && k !in w.taken
    requires !IsControlKey(k) && ControlKey(k) !in l.fields && IsScalar(l.fields[k]) && k in r.fields
    ensures Visit(lib, l, r, w, k) ==
      Walking(w.left, w.taken + {k}, r.fields[k], true, w.equal && l.fields[k] == r.fields[k])
  {
    PlainChecks(lib, r.fields[k]);
    ScalarEqual(lib, l.fields[k], r.fields[k], EMPTY.MustExist());
    assert w.left - {} == w.left;
  }

  /** A control key without settings compares its base with the value read last, if the base is taken. */
  lemma VisitUnclean(lib: Library, l: Json, r: Json, w: Walk, u: string, rv: Json)
    requires l.Obj? && r.Obj? && w.Walking? && w.left <= l.fields.Keys && u in w.left && u !in w.taken
    requires IsControlKey(u) && l.fields[u] == Obj(map[]) && BaseOf(u) in l.fields && IsScalar(l.fields[BaseOf(u)])
    requires rv == ActualRead(r, w, BaseOf(u)) && FoundRead(r, w, BaseOf(u))
    ensures Visit(lib, l, r, w, u) ==
      Walking(w.left - {u}, w.taken + {BaseOf(u)}, rv, true, w.equal && l.fields[BaseOf(u)] == rv)
  {
    EmptyControl();
    PlainChecks(lib, rv);
    ScalarEqual(lib, l.fields[BaseOf(u)], rv, EMPTY.MustExist());
  }

  lemma WalkThree(lib: Library, l: Json, r: Json, k1: string, k2: string, k3: string)
    requires l.Obj? && r.Obj? && k1 in l.fields && k2 in l.fields && k3 in l.fields
    ensures Walked(lib, l, r, [k1, k2, k3]) == Visit(lib, l, r, Visit(lib, l, r, Visit(lib, l, r, StartOf(l), k1), k2), k3)
  {
    assert [k1][..0] == [];
    assert Walked(lib, l, r, [k1]) == Visit(lib, l, r, Walked(lib, l, r, []), k1);
    assert [k1, k2][..1] == [k1];
    assert Walked(lib, l, r, [k1, k2]) == Visit(lib, l, r, Walked(lib, l, r, [k1]), k2);
    assert [k1, k2, k3][..2] == [k1, k2];
  }

  lemma ControlLast(lib: Library, a: string, b: string, u: string)
    requires Setting(a, b, u)
    ensures WalkVerdict(lib, Expected(a, b, u), Actual(a, b), false, [a, b, u]) == Verdict(false)
  {
    var l, r, keys := Expected(a, b, u), Actual(a, b), {a, b, u};
    SettingKeys(a, b, u);
    WalkThree(lib, l, r, a, b, u);
    VisitPlain(lib, l, r, StartOf(l), a);
    assert {} + {a} == {a} && {a} + {b} == {a, b};
    VisitPlain(lib, l, r, Walking(keys, {a}, X, true, true), b);
    VisitUnclean(lib, l, r, Walking(keys, {a, b}, Y, true, true), u, Y);
  }

  lemma ControlFirst(lib: Library, a: string, b: string, u: string)
    requires Setting(a, b, u)
    ensures WalkVerdict(lib, Expected(a, b, u), Actual(a, b), false, [u, a, b]) == YES
  {
    var l, r, keys := Expected(a, b, u), Actual(a, b), {a, b, u};
    SettingKeys(a, b, u);
    WalkThree(lib, l, r, u, a, b);
    VisitUnclean(lib, l, r, StartOf(l), u, X);
    assert {} + {a} == {a};
    var w := Walking(keys - {u}, {a}, X, true, true);
    assert Visit(lib, l, r, w, a) == w;
    VisitPlain(lib, l, r, w, b);
  }

  lemma ExpectedOthersClear(a: string, b: string, u: string)
    requires Setting(a, b, u)
    ensures OthersClear(Expected(a, b, u), u)
  {
    SettingKeys(a, b, u);
    assert !HasRange(map[], {});
  }

  lemma BothOrders(lib: Library, a: string, b: string, u: string)
    requires Setting(a, b, u)
    ensures MayObject(lib, Expected(a, b, u), Actual(a, b), false, Verdict(false))
    ensures MayObject(lib, Expected(a, b, u), Actual(a, b), false, YES)
  {
    SettingKeys(a, b, u);
    ExpectedOthersClear(a, b, u);
    ControlLast(lib, a, b, u);
    ControlFirst(lib, a, b, u);
    assert IsOrder([a, b, u], {a, b, u}) && IsOrder([u, a, b], {a, b, u});
    OrdersDecide(lib, Expected(a, b, u), Actual(a, b), false, Verdict(false));
    OrdersDecide(lib, Expected(a, b, u), Actual(a, b), false, YES);
  }

  /** The verdict depends on whether the control key comes before or after its base. */
  lemma UncleanUnsettled(lib: Library, u: string, b: string)
    requires Setting(BaseOf(u), b, u)
    ensures OthersClear(Expected(BaseOf(u), b, u), u)
    ensures !Settled(lib, Expected(BaseOf(u), b, u), Actual(BaseOf(u), b), EMPTY)
  {
    var l, r := Expected(BaseOf(u), b, u), Actual(BaseOf(u), b);
    ExpectedOthersClear(BaseOf(u), b, u);
    BothOrders(lib, BaseOf(u), b, u);
    assert May(lib, l, r, EMPTY, Verdict(false)) && May(lib, l, r, EMPTY, YES);
  }

  /**
   A control key is safe, in every expected object that is otherwise clear, iff it is clean:
   the base read from any other key may be compared with the value of another key.
   */
  lemma CleanKeyIffSettled(lib: Library, u: string)
    requires IsControlKey(u)
    ensures CleanKey(u) <==> forall l, r, c :: OthersClear(l, u) ==> Settled(lib, l, r, c)
  {
    if CleanKey(u) {
      forall l, r, c | OthersClear(l, u) ensures Settled(lib, l, r, c) {
        assert Clear(l);
        forall o1, o2 | May(lib, l, r, c, o1) && May(lib, l, r, c, o2) ensures o1 == o2 {
          Determined(lib, l, r, c, o1);
          Determined(lib, l, r, c, o2);
        }
      }
    } else {
      var b := SettingExists(u);
      UncleanUnsettled(lib, u, b);
    }
  }
}

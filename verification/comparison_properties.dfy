/** What the comparison promises: exactness, soundness, reflexivity, and strict implies lax. */
module ComparisonProperties {
  import opened JsonValues
  import opened MapOrders
  import opened Control
  import opened Matching
  import opened Comparison

  ghost predicate Equal(lib: Library, l: Json, r: Json, c: Context) {
    Compare(lib, l, r, c) == YES
  }

  // ---------- well-formed expected values never end in an error ----------

  lemma {:induction false} NeverMalformed(lib: Library, l: Json, r: Json, c: Context)
    requires WellFormed(l)
    ensures Compare(lib, l, r, c) != Malformed
    decreases l, 2
  {
    if l.Arr? && r.Arr? {
      PairsNotMalformed(lib, l, r, Next(c));
      GreedyNotStopped(Pairs(lib, l, r, Next(c)), c.OrderMatters(), |l.elems|);
    } else if l.Obj? && r.Obj? {
      forall b | b in Bases(l.fields.Keys) ensures Field(lib, l, r, b) != Malformed {
        FieldNotMalformed(lib, l, r, b);
      }
    }
  }

  lemma FieldNotMalformed(lib: Library, l: Json, r: Json, b: string)
    requires l.Obj? && r.Obj? && WellFormed(l) && b in Bases(l.fields.Keys)
    ensures Field(lib, l, r, b) != Malformed
    decreases l, 1
  {
    var k :| k in l.fields && BaseOf(k) == b;
    BaseIsNoControl(k);
    assert IsControlKey(ControlKey(b));
    if b in l.fields {
      var control := ControlOf(l.fields, b).value;
      NeverMalformed(lib, l.fields[b], Lookup(r.fields, b), control.MustExist());
    }
  }

  lemma PairsNotMalformed(lib: Library, l: Json, r: Json, c: Context)
    requires l.Arr? && r.Arr? && WellFormed(l)
    ensures NoneMalformed(Pairs(lib, l, r, c))
    decreases l, 1
  {
    forall i, j | 0 <= i < |l.elems| && 0 <= j < |r.elems|
      ensures Compare(lib, l.elems[i], r.elems[j], c) != Malformed
    {
      NeverMalformed(lib, l.elems[i], r.elems[j], c);
    }
  }

  // ---------- ordered arrays ----------

  /** f sends every expected element to an actual element it equals in context c. */
  ghost predicate Assigns(lib: Library, f: seq<nat>, l: Json, r: Json, c: Context)
    requires l.Arr? && r.Arr?
  {
    && |f| == |l.elems|
    && forall i :: 0 <= i < |f| ==> f[i] < |r.elems| && Equal(lib, l.elems[i], r.elems[f[i]], c)
  }

  lemma AssignsIsMatches(lib: Library, l: Json, r: Json, c: Context)
    requires l.Arr? && r.Arr?
    ensures forall f :: Assigns(lib, f, l, r, c) <==> Matches(f, Pairs(lib, l, r, c))
  {
  }

  /** With order_matters: Equal iff the expected elements embed, in order, into the actual array. */
  lemma OrderedArrayExact(lib: Library, l: Json, r: Json, c: Context)
    requires l.Arr? && r.Arr? && WellFormed(l) && c.OrderMatters() && !c.NoExtra()
    ensures Equal(lib, l, r, c) <==> exists f :: Assigns(lib, f, l, r, Next(c)) && Increasing(f)
  {
    PairsNotMalformed(lib, l, r, Next(c));
    OrderedExact(Pairs(lib, l, r, Next(c)), |r.elems|);
    AssignsIsMatches(lib, l, r, Next(c));
  }

  /** With order_matters and no_extra: Equal iff the lengths agree and elements match position by position. */
  lemma OrderedNoExtraArrayExact(lib: Library, l: Json, r: Json, c: Context)
    requires l.Arr? && r.Arr? && WellFormed(l) && c.OrderMatters() && c.NoExtra()
    ensures Equal(lib, l, r, c) <==>
      |l.elems| == |r.elems| && forall i :: 0 <= i < |l.elems| ==> Equal(lib, l.elems[i], r.elems[i], Next(c))
  {
    PairsNotMalformed(lib, l, r, Next(c));
    OrderedNoExtraExact(Pairs(lib, l, r, Next(c)), |r.elems|);
  }

  // ---------- unordered arrays ----------

  /** Without order_matters: Equal gives an injective assignment, onto under no_extra. */
  lemma UnorderedArraySound(lib: Library, l: Json, r: Json, c: Context)
    requires l.Arr? && r.Arr? && !c.OrderMatters() && Equal(lib, l, r, c)
    ensures exists f :: Assigns(lib, f, l, r, Next(c)) && Injective(f) && (c.NoExtra() ==> Onto(f, |r.elems|))
  {
    UnorderedSound(Pairs(lib, l, r, Next(c)), |r.elems|, c.NoExtra());
    AssignsIsMatches(lib, l, r, Next(c));
  }

  /** Whatever p and q both equal, q equals everything p equals: p may choose first. */
  ghost predicate MayPrecede(lib: Library, p: Json, q: Json, c: Context) {
    forall x, y :: Equal(lib, p, x, c) && Equal(lib, q, x, c) && Equal(lib, p, y, c) ==> Equal(lib, q, y, c)
  }

  ghost predicate Assignable(lib: Library, l: Json, r: Json, c: Context)
    requires l.Arr? && r.Arr?
  {
    exists f :: Assigns(lib, f, l, r, c) && Injective(f)
  }

  /** Greedy finds an assignment whenever one exists, if every expected element may precede the later ones. */
  lemma UnorderedArrayExact(lib: Library, l: Json, r: Json, c: Context)
    requires l.Arr? && r.Arr? && WellFormed(l) && !c.OrderMatters()
    requires forall i, k :: 0 <= i < k < |l.elems| ==> MayPrecede(lib, l.elems[i], l.elems[k], Next(c))
    ensures Equal(lib, l, r, c) <==>
      Assignable(lib, l, r, Next(c)) && (c.NoExtra() ==> |l.elems| == |r.elems|)
  {
    var m := Pairs(lib, l, r, Next(c));
    PairsNotMalformed(lib, l, r, Next(c));
    forall i, k, j, j' | 0 <= i < k < |m| && 0 <= j < |r.elems| && 0 <= j' < |r.elems|
      ensures Nested(m, i, k, j, j')
    {
      var p, q, x, y := l.elems[i], l.elems[k], r.elems[j], r.elems[j'];
      assert MayPrecede(lib, p, q, Next(c));
      assert m[i][j] == Compare(lib, p, x, Next(c)) && m[k][j] == Compare(lib, q, x, Next(c));
      assert m[i][j'] == Compare(lib, p, y, Next(c)) && m[k][j'] == Compare(lib, q, y, Next(c));
      if Equal(lib, p, x, Next(c)) && Equal(lib, q, x, Next(c)) && Equal(lib, p, y, Next(c)) {
        assert Equal(lib, q, y, Next(c));
      }
    }
    UnorderedExact(m, |r.elems|);
    NoExtraMeansSameLength(m, |r.elems|, false);
    AssignsIsMatches(lib, l, r, Next(c));
  }

  ghost predicate Satisfiable(lib: Library, p: Json, c: Context) {
    exists v :: Equal(lib, p, v, c)
  }

  ghost predicate AllSatisfiable(lib: Library, elems: seq<Json>, c: Context) {
    forall i :: 0 <= i < |elems| ==> Satisfiable(lib, elems[i], c)
  }

  ghost predicate InGoodOrder(lib: Library, elems: seq<Json>, c: Context) {
    forall i, k :: 0 <= i < k < |elems| ==> MayPrecede(lib, elems[i], elems[k], c)
  }

  /** Against this actual array, the expected one is Equal exactly if its elements can be assigned. */
  ghost predicate Exact(lib: Library, l: Json, r: Json, c: Context)
    requires l.Arr? && r.Arr?
  {
    Equal(lib, l, r, c) <==> Assignable(lib, l, r, Next(c)) && (c.NoExtra() ==> |l.elems| == |r.elems|)
  }

  /**
   Greedy is not complete for structured elements. It is exact against all actual arrays
   iff every expected element may precede every later one, or some element matches nothing.
   */
  lemma GreedyExactIff(lib: Library, l: Json, c: Context)
    requires l.Arr? && WellFormed(l) && !c.OrderMatters()
    ensures (forall r: Json :: r.Arr? ==> Exact(lib, l, r, c)) <==>
      InGoodOrder(lib, l.elems, Next(c)) || !AllSatisfiable(lib, l.elems, Next(c))
  {
    if InGoodOrder(lib, l.elems, Next(c)) {
      forall r: Json | r.Arr? ensures Exact(lib, l, r, c) {
        UnorderedArrayExact(lib, l, r, c);
      }
    } else if !AllSatisfiable(lib, l.elems, Next(c)) {
      forall r: Json | r.Arr? ensures Exact(lib, l, r, c) {
        NothingAssignable(lib, l, r, c);
      }
    } else {
      var i, k :| 0 <= i < k < |l.elems| && !MayPrecede(lib, l.elems[i], l.elems[k], Next(c));
      var x, y :| && Equal(lib, l.elems[i], x, Next(c)) && Equal(lib, l.elems[k], x, Next(c))
                  && Equal(lib, l.elems[i], y, Next(c)) && !Equal(lib, l.elems[k], y, Next(c));
      var r := Trap(lib, l, c, i, k, x, y);
      assert !Exact(lib, l, r, c);
    }
  }

  lemma AssignableSatisfies(lib: Library, l: Json, r: Json, c: Context)
    requires l.Arr? && r.Arr? && Assignable(lib, l, r, c)
    ensures AllSatisfiable(lib, l.elems, c)
  {
    var f :| Assigns(lib, f, l, r, c) && Injective(f);
    assert forall i :: 0 <= i < |f| ==> Equal(lib, l.elems[i], r.elems[f[i]], c);
  }

  lemma NothingAssignable(lib: Library, l: Json, r: Json, c: Context)
    requires l.Arr? && r.Arr? && !c.OrderMatters() && !AllSatisfiable(lib, l.elems, Next(c))
    ensures !Assignable(lib, l, r, Next(c)) && !Equal(lib, l, r, c)
  {
    if Assignable(lib, l, r, Next(c)) {
      AssignableSatisfies(lib, l, r, Next(c));
    }
    if Equal(lib, l, r, c) {
      UnorderedArraySound(lib, l, r, c);
    }
  }

  lemma {:induction false} Witnesses(lib: Library, elems: seq<Json>, c: Context) returns (ws: seq<Json>)
    requires AllSatisfiable(lib, elems, c)
    ensures |ws| == |elems| && forall i :: 0 <= i < |ws| ==> Equal(lib, elems[i], ws[i], c)
  {
    if elems == [] {
      ws := [];
    } else {
      var n := |elems| - 1;
      var front := Witnesses(lib, elems[..n], c);
      assert Satisfiable(lib, elems[n], c);
      var v :| Equal(lib, elems[n], v, c);
      ws := front + [v];
    }
  }

  /**
   Element i takes x, the only thing left for element k once the elements that match y have
   taken the columns holding y; putting i on k's column would serve all.
   */
  lemma Trap(lib: Library, l: Json, c: Context, i: nat, k: nat, x: Json, y: Json) returns (r: Json)
    requires l.Arr? && !c.OrderMatters() && AllSatisfiable(lib, l.elems, Next(c)) && i < k < |l.elems|
    requires Equal(lib, l.elems[i], x, Next(c)) && Equal(lib, l.elems[k], x, Next(c))
    requires Equal(lib, l.elems[i], y, Next(c)) && !Equal(lib, l.elems[k], y, Next(c))
    ensures r.Arr? && |r.elems| == |l.elems| && Assignable(lib, l, r, Next(c)) && !Equal(lib, l, r, c)
  {
    var elems := TrapElements(lib, l.elems, Next(c), i, k, x, y);
    r := Arr(elems);
    SwapAssigns(lib, l, r, Next(c), i, k);
    TrapSprings(lib, l, r, c, k, y);
  }

  lemma TrapElements(lib: Library, elems: seq<Json>, c: Context, i: nat, k: nat, x: Json, y: Json) returns (actual: seq<Json>)
    requires AllSatisfiable(lib, elems, c) && i < k < |elems|
    ensures |actual| == |elems| && actual[i] == x && actual[k] == y
    ensures forall j :: 0 <= j < |elems| && j != i && j != k ==> Equal(lib, elems[j], actual[j], c)
    ensures forall j :: k < j < |elems| && Equal(lib, elems[j], y, c) ==> actual[j] == y
  {
    var ws := Witnesses(lib, elems, c);
    actual := seq(|elems|, j requires 0 <= j < |elems| =>
      if j == i then x else if j == k || (j > k && Equal(lib, elems[j], y, c)) then y else ws[j]);
  }

  lemma SwapAssigns(lib: Library, l: Json, r: Json, c: Context, i: nat, k: nat)
    requires l.Arr? && r.Arr? && |l.elems| == |r.elems| && i < k < |l.elems|
    requires Equal(lib, l.elems[i], r.elems[k], c) && Equal(lib, l.elems[k], r.elems[i], c)
    requires forall j :: 0 <= j < |l.elems| && j != i && j != k ==> Equal(lib, l.elems[j], r.elems[j], c)
    ensures Assignable(lib, l, r, c)
  {
    var n := |l.elems|;
    var f := seq(n, j requires 0 <= j < n => if j == i then k else if j == k then i else j);
    assert Assigns(lib, f, l, r, c) && Injective(f);
  }

  lemma TrapSprings(lib: Library, l: Json, r: Json, c: Context, k: nat, y: Json)
    requires l.Arr? && r.Arr? && |l.elems| == |r.elems| && k < |l.elems| && !c.OrderMatters()
    requires forall j :: 0 <= j < k ==> Equal(lib, l.elems[j], r.elems[j], Next(c))
    requires r.elems[k] == y && !Equal(lib, l.elems[k], y, Next(c))
    requires forall j :: k < j < |l.elems| && Equal(lib, l.elems[j], y, Next(c)) ==> r.elems[j] == y
    ensures !Equal(lib, l, r, c)
  {
    var rows := set j: nat | k < j < |l.elems| && Equal(lib, l.elems[j], y, Next(c));
    OwnRows(lib, l, r, Next(c), k, y, rows);
    SlotMissed(Pairs(lib, l, r, Next(c)), k, rows, c.NoExtra());
  }

  lemma OwnRows(lib: Library, l: Json, r: Json, c: Context, k: nat, y: Json, rows: set<nat>)
    requires l.Arr? && r.Arr? && |l.elems| == |r.elems| && k < |l.elems|
    requires forall j: nat :: j in rows <==> k < j < |l.elems| && Equal(lib, l.elems[j], y, c)
    requires r.elems[k] == y && !Equal(lib, l.elems[k], y, c)
    requires forall j :: j in rows ==> r.elems[j] == y
    ensures OwnColumns(Pairs(lib, l, r, c), k, rows)
  {
    var m := Pairs(lib, l, r, c);
    forall i, col: nat | k <= i < |m| && col < |m| && (col == k || col in rows) && m[i][col] == YES ensures i in rows {
      assert m[i][col] == Compare(lib, l.elems[i], r.elems[col], c);
    }
  }

  // ---------- arrays of scalars ----------

  ghost predicate AllScalar(elems: seq<Json>) {
    forall i :: 0 <= i < |elems| ==> IsScalar(elems[i])
  }

  lemma ScalarEqual(lib: Library, l: Json, r: Json, c: Context)
    requires IsScalar(l)
    ensures Compare(lib, l, r, c) == Verdict(l == r)
  {
  }

  function Without<T>(s: seq<T>, p: nat): (t: seq<T>)
    requires p < |s|
    ensures |t| == |s| - 1
  {
    s[..p] + s[p + 1..]
  }

  lemma WithoutMultiset<T>(s: seq<T>, p: nat)
    requires p < |s|
    ensures multiset(s) == multiset(Without(s, p)) + multiset{s[p]}
  {
    assert s == s[..p] + [s[p]] + s[p + 1..];
  }

  lemma MultisetCancel<T>(a: multiset<T>, b: multiset<T>, x: T)
    requires a + multiset{x} <= b + multiset{x}
    ensures a <= b
  {
    forall y ensures a[y] <= b[y] {
      assert (a + multiset{x})[y] <= (b + multiset{x})[y];
    }
  }

  ghost predicate Picks(f: seq<nat>, l: seq<Json>, r: seq<Json>) {
    && |f| == |l| && Injective(f)
    && forall i :: 0 <= i < |f| ==> f[i] < |r| && r[f[i]] == l[i]
  }

  function Lower(k: nat, p: nat): nat {
    if k > p then k - 1 else k
  }

  function Raise(k: nat, p: nat): nat {
    if k >= p then k + 1 else k
  }

  lemma {:induction false} PicksToMultiset(f: seq<nat>, l: seq<Json>, r: seq<Json>)
    requires Picks(f, l, r)
    ensures multiset(l) <= multiset(r)
    decreases |l|
  {
    if l != [] {
      var n := |l| - 1;
      var p := f[n];
      var g := seq(n, i requires 0 <= i < n => Lower(f[i], p));
      var rest := Without(r, p);
      assert forall i :: 0 <= i < n ==> f[i] != p && rest[g[i]] == r[f[i]];
      PicksToMultiset(g, l[..n], rest);
      WithoutMultiset(r, p);
      assert l == l[..n] + [l[n]];
    }
  }

  /** Picking position p for the last expected element after picking from the rest. */
  lemma PicksExtend(g: seq<nat>, l: seq<Json>, r: seq<Json>, p: nat) returns (f: seq<nat>)
    requires l != [] && p < |r| && r[p] == l[|l| - 1]
    requires Picks(g, l[..|l| - 1], Without(r, p))
    ensures Picks(f, l, r)
  {
    var n := |l| - 1;
    f := seq(n, i requires 0 <= i < n => Raise(g[i], p)) + [p];
    assert forall i :: 0 <= i < n ==> f[i] != p && f[i] < |r| && r[f[i]] == Without(r, p)[g[i]];
  }

  lemma {:induction false} MultisetToPicks(l: seq<Json>, r: seq<Json>) returns (f: seq<nat>)
    requires multiset(l) <= multiset(r)
    ensures Picks(f, l, r)
    decreases |l|
  {
    if l == [] {
      f := [];
    } else {
      var n := |l| - 1;
      assert l == l[..n] + [l[n]];
      assert l[n] in multiset(r);
      var p :| 0 <= p < |r| && r[p] == l[n];
      WithoutMultiset(r, p);
      MultisetCancel(multiset(l[..n]), multiset(Without(r, p)), l[n]);
      var g := MultisetToPicks(l[..n], Without(r, p));
      f := PicksExtend(g, l, r, p);
    }
  }

  lemma SubMultisetOfSameSize<T>(a: seq<T>, b: seq<T>)
    requires multiset(a) <= multiset(b) && |a| == |b|
    ensures multiset(a) == multiset(b)
  {
    var rest := multiset(b) - multiset(a);
    assert multiset(b) == multiset(a) + rest;
    assert |rest| == 0;
  }

  /** Expected scalars: unordered matching is multiset inclusion, multiset equality under no_extra. */
  lemma ScalarArrayExact(lib: Library, l: Json, r: Json, c: Context)
    requires l.Arr? && r.Arr? && AllScalar(l.elems) && !c.OrderMatters()
    ensures Equal(lib, l, r, c) <==>
      if c.NoExtra() then multiset(l.elems) == multiset(r.elems) else multiset(l.elems) <= multiset(r.elems)
  {
    var m := Pairs(lib, l, r, Next(c));
    forall i, j | 0 <= i < |l.elems| && 0 <= j < |r.elems|
      ensures m[i][j] == Verdict(l.elems[i] == r.elems[j])
    {
      ScalarEqual(lib, l.elems[i], r.elems[j], Next(c));
    }
    ScalarLax(m, l.elems, r.elems);
    NoExtraMeansSameLength(m, |r.elems|, false);
    if multiset(l.elems) == multiset(r.elems) {
      assert |multiset(l.elems)| == |multiset(r.elems)|;
    }
    if multiset(l.elems) <= multiset(r.elems) && |l.elems| == |r.elems| {
      SubMultisetOfSameSize(l.elems, r.elems);
    }
  }

  lemma ScalarLax(m: Matrix, l: seq<Json>, r: seq<Json>)
    requires |m| == |l| && Shaped(m, |r|)
    requires forall i, j :: 0 <= i < |l| && 0 <= j < |r| ==> m[i][j] == Verdict(l[i] == r[j])
    ensures ArrayVerdict(m, |r|, false, false) == YES <==> multiset(l) <= multiset(r)
  {
    assert forall f :: Picks(f, l, r) <==> Matches(f, m) && Injective(f);
    assert forall i :: 0 <= i < |m| ==> |m[i]| == |r|;
    forall i, j | 0 <= i < |m| && 0 <= j < |r| ensures m[i][j] != Malformed {
      assert m[i][j] == Verdict(l[i] == r[j]);
    }
    forall i, k, j, j' | 0 <= i < k < |m| && 0 <= j < |r| && 0 <= j' < |r|
      ensures Nested(m, i, k, j, j')
    {
      assert m[i][j] == Verdict(l[i] == r[j]) && m[k][j] == Verdict(l[k] == r[j]);
      assert m[i][j'] == Verdict(l[i] == r[j']) && m[k][j'] == Verdict(l[k] == r[j']);
    }
    UnorderedExact(m, |r|);
    if f :| Picks(f, l, r) {
      PicksToMultiset(f, l, r);
    }
    if multiset(l) <= multiset(r) {
      var f := MultisetToPicks(l, r);
    }
  }

  // ---------- reflexivity ----------

  ghost predicate NoControls(v: Json) {
    match v
    case Arr(elems) => forall i :: 0 <= i < |elems| ==> NoControls(elems[i])
    case Obj(fields) => forall k :: k in fields ==> !IsControlKey(k) && NoControls(fields[k])
    case _ => true
  }

  /** A value without control keys equals itself in every context. */
  lemma {:induction false} Reflexive(lib: Library, v: Json, c: Context)
    requires NoControls(v)
    ensures Equal(lib, v, v, c)
    decreases v
  {
    match v {
      case Arr(elems) =>
        var m := Pairs(lib, v, v, Next(c));
        forall i | 0 <= i < |elems| ensures m[i][i] == YES {
          Reflexive(lib, elems[i], Next(c));
        }
        DiagonalVerdict(m, c.OrderMatters(), c.NoExtra());
      case Obj(fields) =>
        var bases := Bases(fields.Keys);
        forall k | k in fields ensures k in bases {
          assert BaseOf(k) == k;
        }
        forall b | b in bases ensures Field(lib, v, v, b) == YES {
          assert IsControlKey(ControlKey(b));
          Reflexive(lib, fields[b], EMPTY.MustExist());
          PlainChecks(lib, fields[b]);
        }
      case _ =>
    }
  }

  lemma PlainChecks(lib: Library, v: Json)
    ensures KeyChecks(lib, v, true, EMPTY.MustExist())
  {
    assert |"must_exist"| == 10 && |"must_not_exist"| == 14;
    assert |"is_string"| == 9 && |"is_number"| == 9 && |"is_bool"| == 7 && |"is_array"| == 8 && |"is_object"| == 9;
  }

  // ---------- strict implies lax ----------

  /** A context that compares arrays and objects leniently at every depth, such as the empty one. */
  ghost predicate Lenient(c: Context) {
    !c.OrderMatters() && !c.NoExtra() && !c.ElementNoExtra()
  }

  lemma NextSettings(c: Context)
    ensures var depth := NextDepth(c.Depth());
      && Next(c).Depth() == depth
      && Next(c).OrderMatters() == (depth >= -1 && c.OrderMatters())
      && Next(c).NoExtra() == (c.ElementNoExtra() || (depth >= -1 && c.NoExtra()))
      && !Next(c).ElementNoExtra()
  {
    var depth := NextDepth(c.Depth());
    InnerSettings(depth, depth >= -1 && c.OrderMatters(), c.ElementNoExtra() || (depth >= -1 && c.NoExtra()));
  }

  /** All lenient contexts compare alike, whatever their depth. */
  lemma {:induction false} LenientSame(lib: Library, l: Json, r: Json, c: Context, d: Context)
    requires Lenient(c) && Lenient(d)
    ensures Compare(lib, l, r, c) == Compare(lib, l, r, d)
    decreases l, 1
  {
    if l.Arr? && r.Arr? {
      NextSettings(c);
      NextSettings(d);
      LenientPairs(lib, l, r, Next(c), Next(d));
    }
  }

  lemma LenientPairs(lib: Library, l: Json, r: Json, c: Context, d: Context)
    requires l.Arr? && r.Arr? && Lenient(c) && Lenient(d)
    ensures Pairs(lib, l, r, c) == Pairs(lib, l, r, d)
    decreases l, 0
  {
    var m, n := Pairs(lib, l, r, c), Pairs(lib, l, r, d);
    forall i | 0 <= i < |l.elems| ensures m[i] == n[i] {
      forall j | 0 <= j < |r.elems| ensures m[i][j] == n[i][j] {
        LenientSame(lib, l.elems[i], r.elems[j], c, d);
      }
    }
  }

  /** Ordered, or without no_extra for the elements. */
  ghost predicate Strict(c: Context) {
    c.OrderMatters() || !Next(c).NoExtra()
  }

  /** Equal in a strict context implies equal in every lenient one. */
  lemma {:induction false} StrictImpliesLenient(lib: Library, l: Json, r: Json, c: Context, lax: Context)
    requires WellFormed(l) && Strict(c) && Lenient(lax) && Equal(lib, l, r, c)
    ensures Equal(lib, l, r, lax)
    decreases l
  {
    if l.Arr? && r.Arr? {
      var width := |r.elems|;
      NextSettings(c);
      NextSettings(lax);
      PairsNotMalformed(lib, l, r, Next(lax));
      NoExtraMeansSameLength(Pairs(lib, l, r, Next(c)), width, c.OrderMatters());
      if c.OrderMatters() {
        StrictPairs(lib, l, r, c, lax);
        EmbeddingImpliesUnordered(Pairs(lib, l, r, Next(c)), Pairs(lib, l, r, Next(lax)), width);
      } else {
        LenientPairs(lib, l, r, Next(c), Next(lax));
      }
      assert ArrayVerdict(Pairs(lib, l, r, Next(lax)), width, false, false) == YES;
    } else if l.Obj? && r.Obj? {
      assert ObjectVerdict(lib, l, r, c.NoExtra()) == YES;
      assert ObjectVerdict(lib, l, r, false) == YES;
    }
  }

  /** Below order_matters every level is strict again, so what matches there matches leniently. */
  lemma StrictPairs(lib: Library, l: Json, r: Json, c: Context, lax: Context)
    requires l.Arr? && r.Arr? && WellFormed(l) && c.OrderMatters() && Lenient(lax)
    ensures forall i, j :: 0 <= i < |l.elems| && 0 <= j < |r.elems| && Pairs(lib, l, r, Next(c))[i][j] == YES ==>
      Pairs(lib, l, r, Next(lax))[i][j] == YES
    decreases l, 0
  {
    NextSettings(c);
    NextSettings(Next(c));
    NextSettings(lax);
    forall i, j | 0 <= i < |l.elems| && 0 <= j < |r.elems| && Pairs(lib, l, r, Next(c))[i][j] == YES
      ensures Pairs(lib, l, r, Next(lax))[i][j] == YES
    {
      StrictImpliesLenient(lib, l.elems[i], r.elems[j], Next(c), Next(lax));
    }
  }

  /** Whatever matches with order_matters (any depth, no_extra, element_no_extra) matches without controls. */
  lemma StrictImpliesLax(lib: Library, l: Json, r: Json, c: Context)
    requires WellFormed(l) && c.OrderMatters() && Equal(lib, l, r, c)
    ensures Equal(lib, l, r, EMPTY)
  {
    StrictImpliesLenient(lib, l, r, c, EMPTY);
  }

  // ---------- no_extra alone is not stricter ----------

  lemma SmallScalarArrays(lib: Library, a: Json, b: Json, c: Context)
    requires IsScalar(a) && IsScalar(b) && a != b && !c.OrderMatters() && !c.NoExtra()
    ensures Equal(lib, Arr([a]), Arr([a, b]), c) && !Equal(lib, Arr([a, b]), Arr([a]), c)
  {
    assert multiset([a, b]) == multiset([a]) + multiset([b]);
    assert |multiset([a, b])| == 2 && |multiset([a])| == 1;
    ScalarArrayExact(lib, Arr([a]), Arr([a, b]), c);
    ScalarArrayExact(lib, Arr([a, b]), Arr([a]), c);
  }

  lemma ExactArraysDisjoint(lib: Library, a: Json, b: Json, x: Json, exact: Context)
    requires IsScalar(a) && IsScalar(b) && !exact.OrderMatters() && exact.NoExtra()
    ensures !(Equal(lib, Arr([a]), x, exact) && Equal(lib, Arr([a, b]), x, exact))
  {
    if x.Arr? {
      ScalarArrayExact(lib, Arr([a]), x, exact);
      ScalarArrayExact(lib, Arr([a, b]), x, exact);
      assert |multiset([a, b])| == 2 && |multiset([a])| == 1;
    }
  }

  /** Exact elements leave each other's slots alone, lenient ones do not. */
  lemma SwappedPair(lib: Library, a: Json, b: Json, c: Context)
    requires IsScalar(a) && IsScalar(b) && a != b && !c.OrderMatters() && Next(c).NoExtra()
    ensures var p, q := Arr([a]), Arr([a, b]);
      Equal(lib, Arr([p, q]), Arr([q, p]), c) && !Equal(lib, Arr([p, q]), Arr([q, p]), EMPTY)
  {
    var p, q := Arr([a]), Arr([a, b]);
    NextSettings(c);
    forall x ensures !(Equal(lib, p, x, Next(c)) && Equal(lib, q, x, Next(c))) {
      ExactArraysDisjoint(lib, a, b, x, Next(c));
    }
    SwappedPairMatches(lib, p, q, c);
    NextSettings(EMPTY);
    SmallScalarArrays(lib, a, b, Next(EMPTY));
    TrapSprings(lib, Arr([p, q]), Arr([q, p]), EMPTY, 1, p);
  }

  lemma SwappedPairMatches(lib: Library, p: Json, q: Json, c: Context)
    requires NoControls(p) && NoControls(q) && WellFormed(Arr([p, q]))
    requires !c.OrderMatters() && MayPrecede(lib, p, q, Next(c))
    ensures Equal(lib, Arr([p, q]), Arr([q, p]), c)
  {
    Reflexive(lib, p, Next(c));
    Reflexive(lib, q, Next(c));
    assert Assigns(lib, [1, 0], Arr([p, q]), Arr([q, p]), Next(c)) && Injective([1, 0]);
    UnorderedArrayExact(lib, Arr([p, q]), Arr([q, p]), c);
  }

  /**
   A control makes the comparison stricter than no control iff it sets order_matters or puts
   no no_extra on the elements: greedy may take the only slot a later element fits, which
   the exact elements of no_extra keep it from.
   */
  lemma StricterIff(lib: Library, c: Context)
    ensures (forall l, r :: WellFormed(l) && Equal(lib, l, r, c) ==> Equal(lib, l, r, EMPTY)) <==>
      c.OrderMatters() || !(c.ElementNoExtra() || (c.NoExtra() && (c.Depth() == -1 || c.Depth() > 0)))
  {
    NextSettings(c);
    if Strict(c) {
      forall l, r | WellFormed(l) && Equal(lib, l, r, c) ensures Equal(lib, l, r, EMPTY) {
        StrictImpliesLenient(lib, l, r, c, EMPTY);
      }
    } else {
      var a, b := Bool(true), Bool(false);
      SwappedPair(lib, a, b, c);
      assert WellFormed(Arr([Arr([a]), Arr([a, b])]));
    }
  }
}
